/** What the two quadrature mirror filters of G.722 do (g722/g722_encode.c:299-323,
  g722/g722_decode.c:390-407).  Transmit and receive filter together, with nothing lost in between,
  are a delay: the aliasing of the two bands cancels exactly, and what is left is one symmetric
  filter with a unit gain, close to a pulse. */
module G722FilterBank {
  import opened Words
  import opened G722Band
  import opened G722Quantiser
  import opened G722Codec

  // ---------------------------------------------------------------- one filter

  /** The sums over the even and over the odd places of a window. */
  function EvenSum(v: seq<int>): int
    requires |v| == 24
  {
    3 * v[0] - 11 * v[2] + 12 * v[4] + 32 * v[6] - 210 * v[8] + 951 * v[10] + 3876 * v[12] - 805 * v[14] + 362
    * v[16] - 156 * v[18] + 53 * v[20] - 11 * v[22]
  }

  function OddSum(v: seq<int>): int
    requires |v| == 24
  {
    -11 * v[1] + 53 * v[3] - 156 * v[5] + 362 * v[7] - 805 * v[9] + 3876 * v[11] + 951 * v[13] - 210 * v[15] +
    32 * v[17] + 12 * v[19] - 11 * v[21] + 3 * v[23]
  }

  lemma SumsAre(x: Window)
    ensures Sums(x) == (EvenSum(x), OddSum(x))
  {
    hide SumEven, SumOdd;
    NoTaps(x);
    TapsOf(x, 0);
    TapsOf(x, 1);
    TapsOf(x, 2);
    TapsOf(x, 3);
    TapsOf(x, 4);
    TapsOf(x, 5);
    TapsOf(x, 6);
    TapsOf(x, 7);
    TapsOf(x, 8);
    TapsOf(x, 9);
    TapsOf(x, 10);
    TapsOf(x, 11);
  }

  lemma NoTaps(x: Window)
    ensures SumEven(x, 0) == 0 && SumOdd(x, 0) == 0
  {
  }

  lemma TapsOf(x: Window, n: nat)
    requires n < 12
    ensures var a: int, b: int := x[2 * n], x[2 * n + 1];
            SumEven(x, n + 1) == SumEven(x, n) + QMF[n] * a && SumOdd(x, n + 1) == SumOdd(x, n) + QMF[11 - n] * b
  {
    TimesIsProduct(x[2 * n], QMF[n]);
    TimesIsProduct(x[2 * n + 1], QMF[11 - n]);
  }

  /** Constant sound goes to the low band, at half its value. */
  lemma SplitSteady(x: Window, c: word)
    requires forall i :: 0 <= i < 24 ==> x[i] == c
    ensures Split(x) == (c / 2, 0)
  {
    hide Sums, EvenSum, OddSum;
    SumsAre(x);
    SumsOfPairs(x, c, c);
  }

  /** Sound that alternates from sample to sample goes to the high band. */
  lemma SplitAlternating(x: Window, c: word)
    requires c > MIN_WORD && forall i :: 0 <= i < 24 ==> x[i] == if i % 2 == 0 then c else -c
    ensures Split(x) == (0, -c / 2)
  {
    hide Sums, EvenSum, OddSum;
    SumsAre(x);
    SumsOfPairs(x, c, -c);
  }

  lemma SumsOfPairs(x: Window, a: int, b: int)
    requires forall i :: 0 <= i < 24 ==> x[i] == if i % 2 == 0 then a else b
    ensures EvenSum(x) == 4096 * a && OddSum(x) == 4096 * b
  {
  }

  // ---------------------------------------------------------------- both filters

  /** The coefficients in their order and in reverse, against the values from place s on. */
  function Fir(u: seq<int>, s: nat): int
    requires |u| == 23 && s < 12
  {
    3 * u[s] - 11 * u[s + 1] + 12 * u[s + 2] + 32 * u[s + 3] - 210 * u[s + 4] + 951 * u[s + 5] + 3876 * u[s +
    6] - 805 * u[s + 7] + 362 * u[s + 8] - 156 * u[s + 9] + 53 * u[s + 10] - 11 * u[s + 11]
  }

  function FirBackwards(u: seq<int>, s: nat): int
    requires |u| == 23 && s < 12
  {
    -11 * u[s] + 53 * u[s + 1] - 156 * u[s + 2] + 362 * u[s + 3] - 805 * u[s + 4] + 3876 * u[s + 5] + 951 *
    u[s + 6] - 210 * u[s + 7] + 32 * u[s + 8] + 12 * u[s + 9] - 11 * u[s + 10] + 3 * u[s + 11]
  }

  /** The autocorrelation of the coefficients: symmetric, with the sum 2^24. */
  function Response(u: seq<int>): int
    requires |u| == 23
  {
    -33 * u[0] + 280 * u[1] - 1183 * u[2] + 3086 * u[3] - 4263 * u[4] - 1756 * u[5] + 2668 * u[6] - 432 * u[7]
    - 141 * u[8] - 2325 * u[9] + 2952 * u[10] + 16779510 * u[11] + 2952 * u[12] - 2325 * u[13] - 141 * u[14] -
    432 * u[15] + 2668 * u[16] - 1756 * u[17] - 4263 * u[18] + 3086 * u[19] - 1183 * u[20] + 280 * u[21] - 33
    * u[22]
  }

  /** The path of the even places: one filter after the other in reverse. */
  lemma ForwardPath(u: seq<int>)
    requires |u| == 23
    ensures -11 * Fir(u, 0) + 53 * Fir(u, 1) - 156 * Fir(u, 2) + 362 * Fir(u, 3) - 805 * Fir(u, 4) + 3876 * Fir(u,
            5) + 951 * Fir(u, 6) - 210 * Fir(u, 7) + 32 * Fir(u, 8) + 12 * Fir(u, 9) - 11 * Fir(u, 10) + 3 * Fir(u,
            11)
            == Response(u)
  {
    var f := [Fir(u, 0), Fir(u, 1), Fir(u, 2), Fir(u, 3), Fir(u, 4), Fir(u, 5), Fir(u, 6), Fir(u, 7), Fir(u, 8),
              Fir(u, 9), Fir(u, 10), Fir(u, 11)];
    TwoFilters(u, f);
  }

  lemma TwoFilters(u: seq<int>, f: seq<int>)
    requires |u| == 23 && |f| == 12
    requires f[0] == 3 * u[0] - 11 * u[1] + 12 * u[2] + 32 * u[3] - 210 * u[4] + 951 * u[5] + 3876 * u[6] -
             805 * u[7] + 362 * u[8] - 156 * u[9] + 53 * u[10] - 11 * u[11]
    requires f[1] == 3 * u[1] - 11 * u[2] + 12 * u[3] + 32 * u[4] - 210 * u[5] + 951 * u[6] + 3876 * u[7] -
             805 * u[8] + 362 * u[9] - 156 * u[10] + 53 * u[11] - 11 * u[12]
    requires f[2] == 3 * u[2] - 11 * u[3] + 12 * u[4] + 32 * u[5] - 210 * u[6] + 951 * u[7] + 3876 * u[8] -
             805 * u[9] + 362 * u[10] - 156 * u[11] + 53 * u[12] - 11 * u[13]
    requires f[3] == 3 * u[3] - 11 * u[4] + 12 * u[5] + 32 * u[6] - 210 * u[7] + 951 * u[8] + 3876 * u[9] -
             805 * u[10] + 362 * u[11] - 156 * u[12] + 53 * u[13] - 11 * u[14]
    requires f[4] == 3 * u[4] - 11 * u[5] + 12 * u[6] + 32 * u[7] - 210 * u[8] + 951 * u[9] + 3876 * u[10] -
             805 * u[11] + 362 * u[12] - 156 * u[13] + 53 * u[14] - 11 * u[15]
    requires f[5] == 3 * u[5] - 11 * u[6] + 12 * u[7] + 32 * u[8] - 210 * u[9] + 951 * u[10] + 3876 * u[11] -
             805 * u[12] + 362 * u[13] - 156 * u[14] + 53 * u[15] - 11 * u[16]
    requires f[6] == 3 * u[6] - 11 * u[7] + 12 * u[8] + 32 * u[9] - 210 * u[10] + 951 * u[11] + 3876 * u[12]
             - 805 * u[13] + 362 * u[14] - 156 * u[15] + 53 * u[16] - 11 * u[17]
    requires f[7] == 3 * u[7] - 11 * u[8] + 12 * u[9] + 32 * u[10] - 210 * u[11] + 951 * u[12] + 3876 * u[13]
             - 805 * u[14] + 362 * u[15] - 156 * u[16] + 53 * u[17] - 11 * u[18]
    requires f[8] == 3 * u[8] - 11 * u[9] + 12 * u[10] + 32 * u[11] - 210 * u[12] + 951 * u[13] + 3876 *
             u[14] - 805 * u[15] + 362 * u[16] - 156 * u[17] + 53 * u[18] - 11 * u[19]
    requires f[9] == 3 * u[9] - 11 * u[10] + 12 * u[11] + 32 * u[12] - 210 * u[13] + 951 * u[14] + 3876 *
             u[15] - 805 * u[16] + 362 * u[17] - 156 * u[18] + 53 * u[19] - 11 * u[20]
    requires f[10] == 3 * u[10] - 11 * u[11] + 12 * u[12] + 32 * u[13] - 210 * u[14] + 951 * u[15] + 3876 *
             u[16] - 805 * u[17] + 362 * u[18] - 156 * u[19] + 53 * u[20] - 11 * u[21]
    requires f[11] == 3 * u[11] - 11 * u[12] + 12 * u[13] + 32 * u[14] - 210 * u[15] + 951 * u[16] + 3876 *
             u[17] - 805 * u[18] + 362 * u[19] - 156 * u[20] + 53 * u[21] - 11 * u[22]
    ensures -11 * f[0] + 53 * f[1] - 156 * f[2] + 362 * f[3] - 805 * f[4] + 3876 * f[5] + 951 * f[6] - 210 * f[7] +
            32 * f[8] + 12 * f[9] - 11 * f[10] + 3 * f[11]
            == Response(u)
  {
  }

  /** The path of the odd places is that of the even ones, seen from the other end. */
  lemma BackwardPath(u: seq<int>)
    requires |u| == 23
    ensures 3 * FirBackwards(u, 0) - 11 * FirBackwards(u, 1) + 12 * FirBackwards(u, 2) + 32 * FirBackwards(u, 3) -
            210 * FirBackwards(u, 4) + 951 * FirBackwards(u, 5) + 3876 * FirBackwards(u, 6) - 805 * FirBackwards(u,
            7) + 362 * FirBackwards(u, 8) - 156 * FirBackwards(u, 9) + 53 * FirBackwards(u, 10) - 11 *
            FirBackwards(u, 11)
            == Response(u)
  {
    hide Fir, FirBackwards, Response;
    var r := seq(23, i requires 0 <= i < 23 => u[22 - i]);
    forall i | 0 <= i < 12
      ensures FirBackwards(u, i) == Fir(r, 11 - i)
    {
      Mirrored(u, r, i);
    }
    ForwardPath(r);
    ResponseMirrored(u, r);
  }

  lemma Mirrored(u: seq<int>, r: seq<int>, i: nat)
    requires |u| == |r| == 23 && i < 12 && forall k :: 0 <= k < 23 ==> r[k] == u[22 - k]
    ensures FirBackwards(u, i) == Fir(r, 11 - i)
  {
  }

  lemma ResponseMirrored(u: seq<int>, r: seq<int>)
    requires |u| == |r| == 23 && forall k :: 0 <= k < 23 ==> r[k] == u[22 - k]
    ensures Response(r) == Response(u)
  {
  }

  /** Which is a delay of eleven places, up to 80 units of a 16-bit signal. */
  lemma ResponseIsDelay(u: seq<int>)
    requires |u| == 23 && forall i :: 0 <= i < 23 ==> -0x8000 <= u[i] <= 0x8000
    ensures Within(Response(u) - 0x100_0000 * u[11], 40532 * 0x8000)
  {
  }

  // ---------------------------------------------------------------- sound through both filters

  /** The window of the transmit filter at the t-th of twelve successive pairs. */
  function WindowAt(s: seq<word>, t: nat): (x: Window)
    requires |s| == 46 && t < 12
  {
    s[2 * t..2 * t + 24]
  }

  /** Sum and difference of the two bands of a pair. */
  function BandSum(s: seq<word>, t: nat): int
    requires |s| == 46 && t < 12
  {
    Split(WindowAt(s, t)).0 + Split(WindowAt(s, t)).1
  }

  function BandDifference(s: seq<word>, t: nat): int
    requires |s| == 46 && t < 12
  {
    Split(WindowAt(s, t)).0 - Split(WindowAt(s, t)).1
  }

  /** The window of the receive filter when the bands of twelve pairs arrive, up to an error in each. */
  ghost predicate Received(s: seq<word>, x: Window, error: nat)
    requires |s| == 46
  {
    forall t :: 0 <= t < 12 ==> PairReceived(s, x, error, t)
  }

  ghost predicate PairReceived(s: seq<word>, x: Window, error: nat, t: nat)
    requires |s| == 46 && t < 12
  {
    Distance(x[2 * t], BandSum(s, t)) <= error && Distance(x[2 * t + 1], BandDifference(s, t)) <= error
  }

  /** One pair: the sum and the difference of the bands are the two sums of the window, over 2^13. */
  lemma BandsOfWindow(x: Window)
    ensures var r := Split(x);
            Within(16384 * (r.0 + r.1) - 2 * OddSum(x), 0x8000) &&
            Within(16384 * (r.0 - r.1) - 2 * EvenSum(x), 0x8000)
  {
    hide Sums, OddSum, EvenSum;
    SumsAre(x);
  }

  /** The difference of the bands holds the sound in the even places, their sum that in the odd ones. */
  lemma DifferenceIsFir(s: seq<word>, u: seq<int>, t: nat)
    requires |s| == 46 && |u| == 23 && t < 12 && forall k :: 0 <= k < 23 ==> u[k] == s[2 * k]
    ensures Within(16384 * BandDifference(s, t) - 2 * Fir(u, t), 0x8000)
  {
    hide Split, Fir, EvenSum, WindowAt;
    BandsOfWindow(WindowAt(s, t));
    EvenPlaces(s, u, t);
  }

  lemma SumIsFir(s: seq<word>, u: seq<int>, t: nat)
    requires |s| == 46 && |u| == 23 && t < 12 && forall k :: 0 <= k < 23 ==> u[k] == s[2 * k + 1]
    ensures Within(16384 * BandSum(s, t) - 2 * FirBackwards(u, t), 0x8000)
  {
    hide Split, FirBackwards, OddSum, WindowAt;
    BandsOfWindow(WindowAt(s, t));
    OddPlaces(s, u, t);
  }

  lemma EvenPlaces(s: seq<word>, u: seq<int>, t: nat)
    requires |s| == 46 && |u| == 23 && t < 12 && forall k :: 0 <= k < 23 ==> u[k] == s[2 * k]
    ensures EvenSum(WindowAt(s, t)) == Fir(u, t)
  {
    var x := WindowAt(s, t);
    assert forall i :: 0 <= i < 24 ==> x[i] == s[2 * t + i];
  }

  lemma OddPlaces(s: seq<word>, u: seq<int>, t: nat)
    requires |s| == 46 && |u| == 23 && t < 12 && forall k :: 0 <= k < 23 ==> u[k] == s[2 * k + 1]
    ensures OddSum(WindowAt(s, t)) == FirBackwards(u, t)
  {
    var x := WindowAt(s, t);
    assert forall i :: 0 <= i < 24 ==> x[i] == s[2 * t + i];
  }

  // ---------------------------------------------------------------- what the receive filter makes of it

  function Weighted(g: seq<int>): int
    requires |g| == 12
  {
    3 * g[0] - 11 * g[1] + 12 * g[2] + 32 * g[3] - 210 * g[4] + 951 * g[5] + 3876 * g[6] - 805 * g[7] + 362 * g[8] -
    156 * g[9] + 53 * g[10] - 11 * g[11]
  }

  function WeightedBackwards(g: seq<int>): int
    requires |g| == 12
  {
    -11 * g[0] + 53 * g[1] - 156 * g[2] + 362 * g[3] - 805 * g[4] + 3876 * g[5] + 951 * g[6] - 210 * g[7] + 32 *
    g[8] + 12 * g[9] - 11 * g[10] + 3 * g[11]
  }

  lemma RoundingOfWeighted(g: seq<int>, e: seq<int>, bound: nat)
    requires |g| == |e| == 12 && forall i :: 0 <= i < 12 ==> Within(16384 * g[i] - 2 * e[i], bound)
    ensures Within(16384 * Weighted(g) - 2 * Weighted(e), bound * 6482)
    ensures Within(16384 * WeightedBackwards(g) - 2 * WeightedBackwards(e), bound * 6482)
  {
  }

  lemma OddSumOf(x: Window, g: seq<int>)
    requires |g| == 12 && forall i :: 0 <= i < 12 ==> x[2 * i + 1] == g[i]
    ensures OddSum(x) == WeightedBackwards(g)
  {
  }

  lemma EvenSumOf(x: Window, g: seq<int>)
    requires |g| == 12 && forall i :: 0 <= i < 12 ==> x[2 * i] == g[i]
    ensures EvenSum(x) == Weighted(g)
  {
  }

  lemma WeightedOf(u: seq<int>, e: seq<int>)
    requires |u| == 23 && |e| == 12 && forall i :: 0 <= i < 12 ==> e[i] == FirBackwards(u, i)
    ensures Weighted(e) == Response(u)
  {
    hide FirBackwards, Response;
    BackwardPath(u);
  }

  lemma WeightedBackwardsOf(u: seq<int>, e: seq<int>)
    requires |u| == 23 && |e| == 12 && forall i :: 0 <= i < 12 ==> e[i] == Fir(u, i)
    ensures WeightedBackwards(e) == Response(u)
  {
    hide Fir, Response;
    ForwardPath(u);
  }

  /** The receive filter's outputs before they are cut to 16 bits, first and second sample of a pair. */
  lemma JoinedAre(x: Window)
    ensures Joined(x) == [ToWord(OddSum(x) / 2048), ToWord(EvenSum(x) / 2048)]
  {
    hide Sums, OddSum, EvenSum;
    SumsAre(x);
  }

  lemma LastStep(sum: int, response: int, x: int, error: nat)
    requires Within(16384 * sum - 2 * response, (0x8000 + 16384 * error) * 6482)
    requires Within(response - 0x100_0000 * x, 40532 * 0x8000)
    ensures Within(sum / 2048 - x, 86 + 4 * error)
  {
  }

  lemma FirstSample(s: seq<word>, x: Window, error: nat)
    requires |s| == 46 && Received(s, x, error)
    ensures Within(OddSum(x) / 2048 - s[22], 86 + 4 * error)
  {
    hide Fir, OddSum, Response, Weighted, WeightedBackwards, BandDifference, BandSum;
    var u: seq<int> := seq(23, k requires 0 <= k < 23 => s[2 * k]);
    var g: seq<int> := seq(12, i requires 0 <= i < 12 => x[2 * i + 1]);
    var e := seq(12, i requires 0 <= i < 12 => Fir(u, i));
    forall i | 0 <= i < 12
      ensures Within(16384 * g[i] - 2 * e[i], 0x8000 + 16384 * error)
    {
      DifferenceIsFir(s, u, i);
      assert PairReceived(s, x, error, i);
    }
    RoundingOfWeighted(g, e, 0x8000 + 16384 * error);
    WeightedBackwardsOf(u, e);
    ResponseIsDelay(u);
    OddSumOf(x, g);
    LastStep(WeightedBackwards(g), Response(u), s[22], error);
  }

  lemma SecondSample(s: seq<word>, x: Window, error: nat)
    requires |s| == 46 && Received(s, x, error)
    ensures Within(EvenSum(x) / 2048 - s[23], 86 + 4 * error)
  {
    hide FirBackwards, EvenSum, Response, Weighted, WeightedBackwards, BandDifference, BandSum;
    var u: seq<int> := seq(23, k requires 0 <= k < 23 => s[2 * k + 1]);
    var g: seq<int> := seq(12, i requires 0 <= i < 12 => x[2 * i]);
    var e := seq(12, i requires 0 <= i < 12 => FirBackwards(u, i));
    forall i | 0 <= i < 12
      ensures Within(16384 * g[i] - 2 * e[i], 0x8000 + 16384 * error)
    {
      SumIsFir(s, u, i);
      assert PairReceived(s, x, error, i);
    }
    RoundingOfWeighted(g, e, 0x8000 + 16384 * error);
    WeightedOf(u, e);
    ResponseIsDelay(u);
    EvenSumOf(x, g);
    LastStep(Weighted(g), Response(u), s[23], error);
  }

  /** Two samples of sound, cut to 16 bits. */
  ghost predicate Plays(out: seq<word>, first: word, second: word, error: nat) {
    exists a: int, b: int :: out == [ToWord(a), ToWord(b)] && Distance(a, first) <= error && Distance(b, second) <= error
  }

  /** Near-perfect reconstruction: sound whose bands arrive comes out of the receive filter 22 samples
      later, each sample in its place in the pair, within 86 units and four times the error of the
      bands, as far as the final conversion to 16 bits does not wrap around. */
  lemma FilterBankIsDelay(s: seq<word>, x: Window, error: nat)
    requires |s| == 46 && Received(s, x, error)
    ensures Plays(Joined(x), s[22], s[23], 86 + 4 * error)
  {
    hide OddSum, EvenSum, Received, Joined;
    FirstSample(s, x, error);
    SecondSample(s, x, error);
    JoinedAre(x);
  }

  // ---------------------------------------------------------------- sound through the codec

  /** The bands that the encoder quantises at the t-th pair of a run, and those the decoder joins. */
  ghost function SentBands(e: Config, enc: Core, amp: seq<word>, t: nat): (int, int)
    requires !e.eightK && 2 * t + 2 <= |amp|
  {
    Split(Encode(e, enc, amp[..2 * t + 2]).0.x)
  }

  ghost function ReceivedBands(d: Config, dec: Core, codes: seq<nat>, t: nat): (r: (int, int))
    requires t < |codes|
    ensures -16384 <= r.0 <= 16383 && -16384 <= r.1 <= 16383
  {
    var core := Decode(d, dec, codes[..t]).0;
    (LowOutput(d.bits, core.low, codes[t]), HighOutput(core.high, HighIndex(d.bits, codes[t])))
  }

  lemma NextEncoded(e: Config, enc: Core, amp: seq<word>, n: nat)
    requires !e.eightK && n % 2 == 0 && n + 2 <= |amp|
    ensures Encode(e, enc, amp[..n + 2]).0.x == Shifted(Encode(e, enc, amp[..n]).0.x, amp[n], amp[n + 1])
  {
    hide Encode, Shifted;
    assert amp[..n + 2] == amp[..n] + amp[n..n + 2];
    WindowOfBlock(e, enc, amp[..n], amp[n..n + 2]);
  }

  lemma WindowOfBlock(e: Config, enc: Core, a: seq<word>, block: seq<word>)
    requires !e.eightK && e.Whole(|a|) && |block| == 2
    ensures e.Whole(|a + block|)
    ensures Encode(e, enc, a + block).0.x == Shifted(Encode(e, enc, a).0.x, block[0], block[1])
  {
    hide Encode, EncodeSample, Shifted;
    EncodeConcat(e, enc, a, block);
    var core := Encode(e, enc, a).0;
    EncodeBlock(e, core, block);
    BlockShiftsIn(e, core, block);
  }

  lemma BlockShiftsIn(e: Config, core: Core, block: seq<word>)
    requires !e.eightK && |block| == 2
    ensures EncodeSample(e, core, block).0.x == Shifted(core.x, block[0], block[1])
  {
    hide Shifted, Adapt, LowCode, HighCode, Code, Split, Sat;
  }

  /** The encoder's window is the latest 24 samples. */
  lemma {:induction false} EncoderWindow(e: Config, enc: Core, amp: seq<word>, t: nat)
    requires !e.eightK && 2 * t <= |amp|
    ensures Encode(e, enc, amp[..2 * t]).0.x == (enc.x + amp)[2 * t..2 * t + 24]
  {
    hide Encode;
    var s := enc.x + amp;
    if t == 0 {
      EncodeNothing(e, enc);
      assert s[..24] == enc.x;
    } else {
      EncoderWindow(e, enc, amp, t - 1);
      NextEncoded(e, enc, amp, 2 * t - 2);
      assert s[2 * t..2 * t + 24] == s[2 * t - 2..2 * t + 22][2..] + [amp[2 * t - 2], amp[2 * t - 1]];
    }
  }

  lemma NextDecoded(d: Config, dec: Core, codes: seq<nat>, t: nat)
    requires !d.eightK && t < |codes|
    ensures var (low, high) := ReceivedBands(d, dec, codes, t);
            var before, after := Decode(d, dec, codes[..t]), Decode(d, dec, codes[..t + 1]);
            after.0.x == Shifted(before.0.x, low + high, low - high) && after.1 == before.1 + Joined(after.0.x)
  {
    hide Decode, Shifted, Adapt, LowOutput, HighOutput, HighIndex, Ril, Joined;
    assert codes[..t + 1] == codes[..t] + [codes[t]];
    DecodeConcat(d, dec, codes[..t], [codes[t]]);
    DecodeBlock(d, Decode(d, dec, codes[..t]).0, codes[t]);
  }

  /** What a pair of bands puts into the window of the decoder at places i and i + 1. */
  ghost predicate Stands(x: Window, i: int, bands: (int, int)) {
    0 <= i < 23 && x[i] == bands.0 + bands.1 && x[i + 1] == bands.0 - bands.1
  }

  /** The decoder's window after n codes. */
  ghost function WindowAfter(d: Config, dec: Core, codes: seq<nat>, n: nat): Window
    requires n <= |codes|
  {
    Decode(d, dec, codes[..n]).0.x
  }

  lemma NextWindow(d: Config, dec: Core, codes: seq<nat>, n: nat, bands: (int, int), i: int)
    requires !d.eightK && n < |codes|
    ensures Stands(WindowAfter(d, dec, codes, n + 1), 22, ReceivedBands(d, dec, codes, n))
    ensures i >= 2 && Stands(WindowAfter(d, dec, codes, n), i, bands)
            ==> Stands(WindowAfter(d, dec, codes, n + 1), i - 2, bands)
  {
    hide Decode, ReceivedBands, Joined;
    NextDecoded(d, dec, codes, n);
  }

  /** The decoder's window is the latest twelve sums and differences of its bands. */
  lemma {:induction false} DecoderWindow(d: Config, dec: Core, codes: seq<nat>, n: nat, t: nat)
    requires !d.eightK && t < n <= |codes| && n <= t + 12
    ensures Stands(WindowAfter(d, dec, codes, n), 24 - 2 * (n - t), ReceivedBands(d, dec, codes, t))
    decreases n
  {
    hide WindowAfter, ReceivedBands, Stands;
    var bands := ReceivedBands(d, dec, codes, t);
    var i := 24 - 2 * (n - 1 - t);
    NextWindow(d, dec, codes, n - 1, bands, i);
    if t < n - 1 {
      DecoderWindow(d, dec, codes, n - 1, t);
    }
  }

  /** The bands of every pair arrive within an error of their own. */
  ghost predicate BandsArrive(e: Config, d: Config, enc: Core, dec: Core, amp: seq<word>, codes: seq<nat>,
                              low: nat, high: nat)
    requires !e.eightK && |amp| == 2 * |codes|
  {
    forall t :: 0 <= t < |codes| ==>
      Distance(ReceivedBands(d, dec, codes, t).0, SentBands(e, enc, amp, t).0) <= low &&
      Distance(ReceivedBands(d, dec, codes, t).1, SentBands(e, enc, amp, t).1) <= high
  }

  lemma PairArrives(e: Config, d: Config, enc: Core, dec: Core, amp: seq<word>, codes: seq<nat>,
                    low: nat, high: nat, t: nat)
    requires !e.eightK && !d.eightK && |amp| == 24 && |codes| == 12 && t < 12
    requires BandsArrive(e, d, enc, dec, amp, codes, low, high)
    ensures PairReceived(enc.x[2..] + amp, Decode(d, dec, codes).0.x, low + high, t)
  {
    hide Decode, Encode, Split, ReceivedBands, SentBands, WindowAt;
    SentAre(e, enc, amp, t);
    DecoderWindow(d, dec, codes, 12, t);
    assert codes[..12] == codes;
  }

  lemma SentAre(e: Config, enc: Core, amp: seq<word>, t: nat)
    requires !e.eightK && |amp| == 24 && t < 12
    ensures SentBands(e, enc, amp, t) == Split(WindowAt(enc.x[2..] + amp, t))
  {
    hide Encode, Split;
    EncoderWindow(e, enc, amp, t + 1);
    assert (enc.x + amp)[2 * t + 2..2 * t + 26] == (enc.x[2..] + amp)[2 * t..2 * t + 24];
  }

  lemma AllArrive(e: Config, d: Config, enc: Core, dec: Core, amp: seq<word>, codes: seq<nat>,
                  low: nat, high: nat, error: nat)
    requires !e.eightK && !d.eightK && |amp| == 24 && |codes| == 12 && error == low + high
    requires BandsArrive(e, d, enc, dec, amp, codes, low, high)
    ensures Received(enc.x[2..] + amp, Decode(d, dec, codes).0.x, error)
  {
    hide Decode, PairReceived, BandsArrive;
    forall t | 0 <= t < 12
      ensures PairReceived(enc.x[2..] + amp, Decode(d, dec, codes).0.x, error, t)
    {
      PairArrives(e, d, enc, dec, amp, codes, low, high, t);
    }
  }

  lemma LastTwo(a: seq<word>, b: seq<word>)
    requires |b| == 2
    ensures (a + b)[|a|..] == b
  {
  }

  /** What a wide-band listener hears, wherever in a run and whatever the states: a pair of samples comes
      out with the code of the twelfth pair, as exactly as the two bands have come through. */
  lemma SoundThroughCodec(e: Config, d: Config, enc: Core, dec: Core, amp: seq<word>, codes: seq<nat>,
                          low: nat, high: nat)
    requires !e.eightK && !d.eightK && |amp| == 24 && |codes| == 12
    requires BandsArrive(e, d, enc, dec, amp, codes, low, high)
    ensures var out := Decode(d, dec, codes).1;
            |out| == 24 && Plays(out[22..], amp[0], amp[1], 86 + 4 * (low + high))
  {
    hide Decode, Joined, Plays, ReceivedBands, PairReceived, BandsArrive, Received;
    var error := low + high;
    var s := enc.x[2..] + amp;
    var x := Decode(d, dec, codes).0.x;
    AllArrive(e, d, enc, dec, amp, codes, low, high, error);
    FilterBankIsDelay(s, x, error);
    NextDecoded(d, dec, codes, 11);
    assert codes[..12] == codes;
    LastTwo(Decode(d, dec, codes[..11]).1, Joined(x));
  }
}
