/** RPE encoding and decoding (gsm/src/rpe.c): weighting filter, grid selection, adaptive
  quantization of the selected samples, and their reconstruction. */
module Rpe {
  import opened Words

  // ---------------------------------------------------------------- 4.2.13 weighting filter

  /** Table 4.4, gsm_H[0..10]. */
  function H(i: nat): int
    requires i <= 10
  {
    match i
    case 0 => -134 case 1 => -374 case 2 => 0 case 3 => 2054 case 4 => 5741 case 5 => 8192
    case 6 => 5741 case 7 => 2054 case 8 => 0 case 9 => -374 case 10 => -134
  }

  /** The signal with the five zero cells on each side that the filter reads. */
  function Padded(e: seq<word>): (wt: seq<word>)
    requires |e| == 40
    ensures |wt| == 50
  {
    [0, 0, 0, 0, 0] + e + [0, 0, 0, 0, 0]
  }

  /** Taps 0..n-1 of the convolution at position k. */
  function Convolution(wt: seq<int>, k: nat, n: nat): int
    requires |wt| == 50 && k < 40 && n <= 11
    decreases n, wt
  {
    if n == 0 then 0 else
      Convolution(wt, k, n - 1) + H(n - 1) * wt[k + n - 1]
  }

  /** The weighted signal: the 11-tap zero-padded convolution with H, rounded and clamped. */
  function Weighted(e: seq<word>): (x: seq<word>)
    requires |e| == 40
    ensures |x| == 40
  {
    seq(40, k requires 0 <= k < 40 => Sat((4096 + Convolution(Padded(e), k, 11)) / 8192))
  }

  lemma ConvolutionUnrolled(wt: seq<int>, k: nat)
    requires |wt| == 50 && k < 40
    ensures Convolution(wt, k, 11) == UnrolledSum(wt, k)
  {
    assert Convolution(wt, k, 1) == H(0) * wt[k];
    assert Convolution(wt, k, 2) == H(0) * wt[k] + H(1) * wt[k + 1];
    assert Convolution(wt, k, 4) == Convolution(wt, k, 2) + H(2) * wt[k + 2] + H(3) * wt[k + 3];
    assert Convolution(wt, k, 6) == Convolution(wt, k, 4) + H(4) * wt[k + 4] + H(5) * wt[k + 5];
    assert Convolution(wt, k, 8) == Convolution(wt, k, 6) + H(6) * wt[k + 6] + H(7) * wt[k + 7];
    assert Convolution(wt, k, 10) == Convolution(wt, k, 8) + H(8) * wt[k + 8] + H(9) * wt[k + 9];
  }

  /** The filter is symmetric about its middle tap, and has a gain of 22766/8192 for constant input. */
  lemma TapsSymmetric(i: nat)
    requires i <= 10
    ensures H(i) == H(10 - i)
    ensures H(0) + H(1) + H(2) + H(3) + H(4) + H(5) + H(6) + H(7) + H(8) + H(9) + H(10) == 22766
  {
  }

  /** A single sample is spread over the five samples on each side of it, by the tap for the distance. */
  lemma PulseResponse(e: seq<word>, j: nat, k: nat)
    requires |e| == 40 && j < 40 && k < 40 && forall i :: 0 <= i < 40 && i != j ==> e[i] == 0
    ensures var near := -5 <= k - j <= 5;
            Weighted(e)[k] == Sat((4096 + (if near then H(5 + j - k) * e[j] else 0)) / 8192)
  {
    var wt, v: int := Padded(e), e[j];
    forall i | 0 <= i < 50
      ensures wt[i] == if i == j + 5 then v else 0
    {
      if 5 <= i < 45 {
        assert wt[i] == e[i - 5];
      }
    }
    ConvolutionUnrolled(wt, k);
    PulseSum(wt, j, k, v);
  }

  lemma PulseSum(wt: seq<int>, j: nat, k: nat, v: int)
    requires |wt| == 50 && j < 40 && k < 40 && forall i :: 0 <= i < 50 ==> wt[i] == if i == j + 5 then v else 0
    ensures UnrolledSum(wt, k) == if -5 <= k - j <= 5 then H(5 + j - k) * v else 0
  {
  }

  /** A sub-segment played backwards is weighted backwards: the filter has no delay. */
  lemma WeightedBackwards(e: seq<word>, f: seq<word>, k: nat)
    requires |e| == |f| == 40 && k < 40 && forall i :: 0 <= i < 40 ==> f[i] == e[39 - i]
    ensures Weighted(f)[k] == Weighted(e)[39 - k]
  {
    var we, wf := Padded(e), Padded(f);
    assert forall i :: 0 <= i < 50 ==> wf[i] == we[49 - i];
    ConvolutionUnrolled(we, 39 - k);
    ConvolutionUnrolled(wf, k);
    BackwardSum(we, wf, k);
  }

  lemma BackwardSum(we: seq<int>, wf: seq<int>, k: nat)
    requires |we| == |wf| == 50 && k < 40 && forall i :: 0 <= i < 50 ==> wf[i] == we[49 - i]
    ensures UnrolledSum(wf, k) == UnrolledSum(we, 39 - k)
  {
  }

  /** The guard cells of the coder's e[50] that nothing writes. */
  ghost predicate Guarded(e: array<word>)
    reads e
  {
    e.Length == 50 &&
    (forall i :: 0 <= i < 5 ==> e[i] == 0) && (forall i :: 45 <= i < 50 ==> e[i] == 0)
  }

  /** The sub-segment between the guard cells. */
  ghost function Middle(e: array<word>): (m: seq<word>)
    requires e.Length == 50
    reads e
    ensures |m| == 40
  {
    e[5..45]
  }

  /** Weighting_filter: reads e[-5..44] in place, without copying it into a padded array. */
  method WeightingFilter(e: array<word>, x: array<word>)
    requires Guarded(e) && x.Length == 40 && x != e
    modifies x
    ensures x[..] == Weighted(Middle(e))
  {
    ghost var wt := Padded(Middle(e));
    assert e[..] == wt;
    for k := 0 to 40
      invariant forall i :: 0 <= i < k ==> x[i] == Weighted(Middle(e))[i]
    {
      var lResult := FilterSum(e[..], k);
      ConvolutionUnrolled(wt, k);
      lResult := lResult / 8192;
      x[k] := if lResult < MIN_WORD then MIN_WORD else if lResult > MAX_WORD then MAX_WORD else lResult;
    }
  }

  /** The sum of the nine STEPs with non-zero taps: it fits a longword. */
  function FilterSum(e: seq<word>, k: nat): (lResult: longword)
    requires |e| == 50 && k < 40
    ensures lResult == 4096 + UnrolledSum(e, k)
  {
    8192 / 2 + UnrolledSum(e, k)
  }

  function UnrolledSum(wt: seq<int>, k: nat): int
    requires |wt| == 50 && k < 40
  {
    -134 * wt[k] - 374 * wt[k + 1] + 2054 * wt[k + 3] + 5741 * wt[k + 4] + 8192 * wt[k + 5]
    + 5741 * wt[k + 6] + 2054 * wt[k + 7] - 374 * wt[k + 9] - 134 * wt[k + 10]
  }

  // ---------------------------------------------------------------- 4.2.14 grid selection

  /** Sum of squares of x[m + 3i] >> 2 for lo <= i < hi. */
  function GridSum(x: seq<word>, m: nat, lo: nat, hi: nat): (sum: int)
    requires |x| == 40 && m <= 3 && lo <= hi <= 13
    ensures 0 <= sum <= (hi - lo) * 0x400_0000
    decreases hi, x
  {
    if lo == hi then 0 else
      var t: int := x[m + 3 * (hi - 1)] / 4;
      SquareBound(t);
      GridSum(x, m, lo, hi - 1) + Times(t, t)
  }

  lemma SquareBound(t: int)
    requires -8192 <= t <= 8192
    ensures 0 <= Times(t, t) == t * t <= 0x400_0000
  {
    TimesIsProduct(t, t);
    ProductBound(t, t, 8192, 8192);
  }

  /** The energy of grid m, doubled as by GSM_L_MULT. */
  function Energy(x: seq<word>, m: nat): (e: longword)
    requires |x| == 40 && m <= 3
    ensures e >= 0
  {
    2 * GridSum(x, m, 0, 13)
  }

  /** Sums of x[m + 3i]^2 and of |x[m + 3i]| for i < n. */
  function GridEnergy(x: seq<word>, m: nat, n: nat): (sum: int)
    requires |x| == 40 && m <= 3 && n <= 13
    decreases n, x
  {
    if n == 0 then 0 else
      var v: int := x[m + 3 * (n - 1)];
      GridEnergy(x, m, n - 1) + Times(v, v)
  }

  function GridLevel(x: seq<word>, m: nat, n: nat): (sum: nat)
    requires |x| == 40 && m <= 3 && n <= 13
    decreases n, x
  {
    if n == 0 then 0 else
      var v: int := x[m + 3 * (n - 1)];
      GridLevel(x, m, n - 1) + Distance(v, 0)
  }

  /** What is compared is the energy of the grid, up to the two bits that are dropped. */
  lemma {:induction false} EnergyOfGrid(x: seq<word>, m: nat, n: nat)
    requires |x| == 40 && m <= 3 && n <= 13
    ensures Within(GridEnergy(x, m, n) - 16 * GridSum(x, m, 0, n), 6 * GridLevel(x, m, n) + 9 * n)
    decreases n
  {
    if n > 0 {
      EnergyOfGrid(x, m, n - 1);
      var v: int := x[m + 3 * (n - 1)];
      TimesIsProduct(v, v);
      TimesIsProduct(v / 4, v / 4);
      hide Times;
      DroppedBits(v, v / 4);
    }
  }

  lemma DroppedBits(x: int, q: int)
    requires q == x / 4
    ensures Within(x * x - 16 * (q * q), 6 * Distance(x, 0) + 9)
  {
    var r := x - 4 * q;
    assert x * x - 16 * (q * q) == r * (2 * x - r);
    assert r == 0 || r == 1 || r == 2 || r == 3;
  }

  /** The commented loop: the best grid among m.. when `best` is the best before m. */
  function GridFrom(x: seq<word>, m: nat, best: nat): (mc: nat)
    requires |x| == 40 && m <= 4 && best <= 3
    ensures mc <= 3
    decreases 4 - m, x
  {
    if m == 4 then best
    else GridFrom(x, m + 1, if Energy(x, m) > Energy(x, best) then m else best)
  }

  function Grid(x: seq<word>): (mc: nat)
    requires |x| == 40
    ensures mc <= 3
  {
    GridFrom(x, 1, 0)
  }

  /** The selected grid has the largest energy, and is the first with that energy. */
  lemma GridIsFirstMaximum(x: seq<word>)
    requires |x| == 40
    ensures forall m :: 0 <= m <= 3 ==> Energy(x, m) <= Energy(x, Grid(x))
    ensures forall m :: 0 <= m < Grid(x) ==> Energy(x, m) < Energy(x, Grid(x))
  {
    GridFromIsFirstMaximum(x, 1, 0);
  }

  lemma {:induction false} GridFromIsFirstMaximum(x: seq<word>, m: nat, best: nat)
    requires |x| == 40 && best < m <= 4
    requires forall i :: 0 <= i < m ==> Energy(x, i) <= Energy(x, best)
    requires forall i :: 0 <= i < best ==> Energy(x, i) < Energy(x, best)
    ensures var mc := GridFrom(x, m, best);
            (forall i :: 0 <= i <= 3 ==> Energy(x, i) <= Energy(x, mc)) &&
            (forall i :: 0 <= i < mc ==> Energy(x, i) < Energy(x, mc))
    decreases 4 - m
  {
    if m < 4 {
      GridFromIsFirstMaximum(x, m + 1, if Energy(x, m) > Energy(x, best) then m else best);
    }
  }

  /** Grids 0 and 3 overlap: sample i + 1 of grid 0 is sample i of grid 3. */
  lemma {:induction false} SharedSum(x: seq<word>, n: nat)
    requires |x| == 40 && n <= 12
    ensures GridSum(x, 0, 1, n + 1) == GridSum(x, 3, 0, n)
    ensures GridSum(x, 0, 0, n + 1) == GridSum(x, 0, 1, n + 1) + GridSum(x, 0, 0, 1)
  {
    if n > 0 {
      SharedSum(x, n - 1);
      assert 0 + 3 * n == 3 + 3 * (n - 1);
    }
  }

  function Selected(x: seq<word>, mc: nat): (xm: seq<word>)
    requires |x| == 40 && mc <= 3
    ensures |xm| == 13
  {
    seq(13, i requires 0 <= i < 13 => x[mc + 3 * i])
  }

  /** A run of STEP(m, i) for lo <= i < hi, added to an accumulator. */
  method AddSteps(x: array<word>, m: nat, lo: nat, hi: nat, start: longword) returns (lResult: longword)
    requires x.Length == 40 && m <= 3 && lo <= hi <= 13 && 0 <= start <= (13 - (hi - lo)) * 0x400_0000
    ensures lResult == start + GridSum(x[..], m, lo, hi)
  {
    lResult := start;
    for i := lo to hi
      invariant lResult == start + GridSum(x[..], m, lo, i)
    {
      var lTemp: longword := x[m + 3 * i] / 4;
      SquareBound(lTemp);
      lResult := lResult + lTemp * lTemp;
    }
  }

  /** RPE_grid_selection, with the part common to grids 0 and 3 summed once. */
  method GridSelection(x: array<word>, xM: array<word>) returns (mc: nat)
    requires x.Length == 40 && xM.Length == 13 && x != xM
    modifies xM
    ensures mc == Grid(x[..]) && xM[..] == Selected(x[..], mc)
  {
    hide Selected;
    ghost var x0 := x[..];
    SharedSum(x0, 12);
    var common := AddSteps(x, 0, 1, 13, 0);
    var lResult := AddSteps(x, 0, 0, 1, common);
    mc := 0;
    var em: longword := lResult * 2;
    assert em == Energy(x0, 0);

    lResult := AddSteps(x, 1, 0, 13, 0);
    if lResult * 2 > em {
      mc, em := 1, lResult * 2;
    }
    assert em == Energy(x0, mc) && Grid(x0) == GridFrom(x0, 2, mc);

    lResult := AddSteps(x, 2, 0, 13, 0);
    if lResult * 2 > em {
      mc, em := 2, lResult * 2;
    }
    assert em == Energy(x0, mc) && Grid(x0) == GridFrom(x0, 3, mc);

    lResult := AddSteps(x, 3, 12, 13, common);
    assert lResult == GridSum(x0, 3, 0, 13);
    if lResult * 2 > em {
      mc, em := 3, lResult * 2;
    }
    assert GridFrom(x0, 4, mc) == mc;
    CopyGrid(x, xM, mc);
  }

  /** The down-sampling loop at the end of RPE_grid_selection. */
  method CopyGrid(x: array<word>, xM: array<word>, mc: nat)
    requires x.Length == 40 && xM.Length == 13 && x != xM && mc <= 3
    modifies xM
    ensures xM[..] == Selected(x[..], mc)
  {
    for i := 0 to 13
      invariant forall k :: 0 <= k < i ==> xM[k] == x[mc + 3 * k]
    {
      xM[i] := x[mc + 3 * i];
    }
  }

  // ---------------------------------------------------------------- 4.2.15 APCM quantization

  /** Table 4.5 and table 4.6. */
  const NRFAC: seq<word> := [29128, 26215, 23832, 21846, 20165, 18725, 17476, 16384]
  const FAC: seq<word> := [18431, 20479, 22527, 24575, 26623, 28671, 30719, 32767]

  /** How often `temp` can be halved before it vanishes, counting at most n halvings. */
  function Halvings(temp: nat, n: nat): (k: nat)
    ensures k <= n
    decreases n, temp
  {
    if n == 0 || temp == 0 then 0 else 1 + Halvings(temp / 2, n - 1)
  }

  lemma {:induction false} HalvingsRange(temp: nat, n: nat)
    requires temp < Pow2(n)
    ensures var k := Halvings(temp, n);
            temp < Pow2(k) && (k > 0 ==> Pow2(k - 1) <= temp)
    decreases n
  {
    if n > 0 && temp > 0 {
      HalvingsRange(temp / 2, n - 1);
    }
  }

  function Exponent(xmax: word): (exp: nat)
    requires xmax >= 0
    ensures exp <= 6
  {
    Halvings(xmax / 512, 6)
  }

  /** The exponent locates the leading bit of xmax. */
  lemma ExponentRange(xmax: word)
    requires xmax >= 0
    ensures var exp := Exponent(xmax);
            xmax < 512 * Pow2(exp) && (exp > 0 ==> 256 * Pow2(exp) <= xmax)
  {
    Pow2Values();
    HalvingsRange(xmax / 512, 6);
  }

  /** The coded maximum: three bits of mantissa below the exponent. */
  function Xmaxc(xmax: word): (xmaxc: word)
    requires xmax >= 0
  {
    var exp := Exponent(xmax);
    ShiftRightFits(xmax, exp + 5);
    Add(Shr(xmax, exp + 5), exp * 8)
  }

  /** Shifting ones into the mantissa until it exceeds seven. */
  function Normalised(exp: word, mant: word): (r: (word, word))
    requires 1 <= mant <= 15 && exp <= 6
    requires exp >= if mant <= 1 then 0 else if mant <= 3 then -1 else if mant <= 7 then -2 else -3
    ensures -3 <= r.0 <= exp && 0 <= r.1 <= 7
    decreases 16 - mant
  {
    if mant <= 7 then Normalised(exp - 1, mant * 2 + 1) else (exp, mant - 8)
  }

  /** APCM_quantization_xmaxc_to_exp_mant, for every six-bit code: the asserted ranges hold. */
  function ExpMant(xmaxc: word): (r: (word, word))
    requires 0 <= xmaxc <= 63
    ensures -4 <= r.0 <= 6 && 0 <= r.1 <= 7
  {
    var exp: word := if xmaxc > 15 then xmaxc / 8 - 1 else 0;
    var mant: word := xmaxc - exp * 8;
    if mant == 0 then (-4, 7) else Normalised(exp, mant)
  }

  /** The code is made of the exponent and the top four bits `q` of the maximum. */
  lemma PeakShape(xmax: word) returns (exp: nat, q: int, p: int)
    requires xmax >= 0
    ensures exp == Exponent(xmax) && p == Pow2(exp + 5) && Xmaxc(xmax) == q + 8 * exp
    ensures 0 <= q <= 15 && (exp > 0 ==> q >= 8) && p * q <= xmax < p * (q + 1)
  {
    ExponentRange(xmax);
    exp := Exponent(xmax);
    p := Pow2(exp + 5);
    q := xmax / p;
    ShrIsDivision(xmax, exp + 5);
    DivBounds(xmax, p, q);
    assert p == 32 * Pow2(exp) by {
      Pow2Add(5, exp);
      Pow2Values();
    }
    TopBits(xmax, Pow2(exp), q, p, exp > 0);
  }

  lemma TopBits(x: int, pe: int, q: int, p: int, normal: bool)
    requires pe > 0 && p == 32 * pe && 0 <= x < 512 * pe && (normal ==> 256 * pe <= x)
    requires p * q <= x < p * (q + 1)
    ensures 0 <= q <= 15 && (normal ==> q >= 8)
  {
    if q >= 16 {
      MulMono(16, q, p);
    }
    if q < 0 {
      MulMono(q + 1, 0, p);
    }
    if normal && q < 8 {
      MulMono(q + 1, 8, p);
    }
  }

  /** Decoding the code of a normal maximum gives back its exponent and mantissa. */
  lemma ExpMantShape(exp: word, q: word)
    requires 0 <= exp <= 6 && 8 <= q <= 15
    ensures ExpMant(q + 8 * exp) == (exp, q - 8)
  {
  }

  /** The normalisation is tight: after scaling by the decoded exponent the largest sample stays
      below the next mantissa step, and therefore within 16 bits. */
  lemma PeakBound(xmax: word)
    requires xmax >= 0
    ensures 0 <= Xmaxc(xmax) <= 63
    ensures var (exp, mant) := ExpMant(Xmaxc(xmax));
            0 <= xmax * Pow2(6 - exp) < (9 + mant) * 2048
  {
    hide Exponent, Xmaxc, ExpMant;
    var exp, q, p := PeakShape(xmax);
    if q >= 8 {
      NormalPeak(xmax, exp, q, p);
    } else {
      assert p == 32 by {
        Pow2Values();
      }
      TinyPeak(xmax, q);
    }
  }

  lemma NormalPeak(xmax: word, exp: word, q: word, p: int)
    requires 0 <= exp <= 6 && 8 <= q <= 15 && 0 <= xmax < p * (q + 1) && p == Pow2(exp + 5)
    ensures var (e, m) := ExpMant(q + 8 * exp);
            0 <= xmax * Pow2(6 - e) < (9 + m) * 2048
  {
    ExpMantShape(exp, q);
    Pow2Add(exp + 5, 6 - exp);
    assert Pow2(11) == 2048;
    Rearranged(xmax, q, p, Pow2(6 - exp));
  }

  lemma TinyPeak(xmax: word, q: word)
    requires 0 <= q < 8 && 0 <= xmax < 32 * (q + 1)
    ensures var (e, m) := ExpMant(q);
            0 <= xmax * Pow2(6 - e) < (9 + m) * 2048
  {
    SmallPeak(q);
    Pow2Values();
  }

  lemma Rearranged(x: int, q: int, a: int, b: int)
    requires x >= 0 && b > 0 && a * b == 2048 && x < a * (q + 1)
    ensures 0 <= x * b < (q + 1) * 2048
  {
    MulMono(x + 1, a * (q + 1), b);
    assert a * (q + 1) * b == (a * b) * (q + 1);
    assert (x + 1) * b == x * b + b;
    MulMono(0, x, b);
  }

  lemma SmallPeak(xmaxc: word)
    requires 0 <= xmaxc <= 15
    ensures ExpMant(xmaxc) == match xmaxc
                              case 0 => (-4, 7) case 1 => (-3, 7) case 2 => (-2, 3) case 3 => (-2, 7)
                              case 4 => (-1, 1) case 5 => (-1, 3) case 6 => (-1, 5) case 7 => (-1, 7)
                              case _ => (0, xmaxc - 8)
  {
    if xmaxc == 1 {
      assert Normalised(-1, 3) == Normalised(-2, 7) == Normalised(-3, 15);
    } else if xmaxc == 2 {
      assert Normalised(-1, 5) == Normalised(-2, 11);
    } else if xmaxc == 3 {
      assert Normalised(-1, 7) == Normalised(-2, 15);
    }
  }

  /** A sample scaled by the exponent. */
  ghost predicate InRange(xn: int, mant: int) {
    -(9 + mant) * 2048 < xn < (9 + mant) * 2048 || (xn == MIN_WORD && mant == 7)
  }

  lemma ScaledSample(x: word, xmax: word)
    requires Abs(x) <= xmax
    ensures 0 <= Xmaxc(xmax) <= 63
    ensures var (exp, mant) := ExpMant(Xmaxc(xmax));
            InRange(x * Pow2(6 - exp), mant)
  {
    PeakBound(xmax);
    if x == MIN_WORD {
      FullScalePeak();
      assert Pow2(0) == 1;
    } else {
      var (exp, mant) := ExpMant(Xmaxc(xmax));
      ScaledMagnitude(x, xmax, Pow2(6 - exp));
    }
  }

  lemma FullScalePeak()
    ensures Xmaxc(MAX_WORD) == 63 && ExpMant(63) == (6, 7)
  {
    var exp, q, p := PeakShape(MAX_WORD);
    ExponentRange(MAX_WORD);
    Pow2Values();
    assert Exponent(MAX_WORD) == 6;
  }

  lemma ScaledMagnitude(x: int, xmax: int, p: int)
    requires Within(x, xmax) && p > 0
    ensures Within(x * p, xmax * p)
  {
    MulMono(x, xmax, p);
    MulMono(-xmax, x, p);
    assert -xmax * p == -(xmax * p);
  }

  /** One coded sample; the shift loses no bits. */
  function CodedSample(xn: word, mant: word): (xmc: word)
    requires 0 <= mant <= 7 && InRange(xn, mant)
    ensures 0 <= xmc <= 7
  {
    CodedRange(xn, mant);
    Mult(xn, NRFAC[mant]) / 4096 + 4
  }

  lemma CodedRange(xn: word, mant: word)
    requires 0 <= mant <= 7 && InRange(xn, mant)
    ensures -4 <= Mult(xn, NRFAC[mant]) / 4096 <= 3
  {
    MultValue(xn, NRFAC[mant]);
    assert mant == 0 || mant == 1 || mant == 2 || mant == 3 || mant == 4 || mant == 5 || mant == 6 || mant == 7;
  }

  // ---------------------------------------------------------------- 4.2.16 inverse quantization

  /** Rounding constant for a right shift by 6 - exp: half a unit, and zero when nothing is
      shifted out. */
  function Rounding(exp: word): (temp3: word)
    requires -4 <= exp <= 6
    ensures temp3 == Pow2(6 - exp) / 2 && temp3 <= 512
  {
    Pow2Values();
    assert exp == -4 || exp == -3 || exp == -2 || exp == -1 || exp == 0 || exp == 1 || exp == 2 || exp == 3
           || exp == 4 || exp == 5 || exp == 6;
    Asl(1, Sub(Sub(6, exp), 1))
  }

  /** The decoded sample before it is scaled back. */
  function Level(xmc: word, mant: word): (level: word)
    requires 0 <= xmc <= 7 && 0 <= mant <= 7
  {
    var temp: word := xmc * 2 - 7;
    var shifted: word := temp * 4096;
    MultR(FAC[mant], shifted)
  }

  function Reconstructed(xmc: word, exp: word, mant: word): (xmp: word)
    requires 0 <= xmc <= 7 && 0 <= mant <= 7 && -4 <= exp <= 6
  {
    Asr(Add(Level(xmc, mant), Rounding(exp)), Sub(6, exp))
  }

  /** Quantizer error in the scaled domain: half a step, an eighth of the block maximum. */
  lemma LevelError(xn: word, mant: word)
    requires 0 <= mant <= 7 && InRange(xn, mant)
    ensures Within(Level(CodedSample(xn, mant), mant), 28672)
    ensures Within(Level(CodedSample(xn, mant), mant) - xn, (9 + mant) * 256 + 4)
  {
    CodedRange(xn, mant);
    MultValue(xn, NRFAC[mant]);
    var xmc := CodedSample(xn, mant);
    var shifted: word := (xmc * 2 - 7) * 4096;
    MultRValue(FAC[mant], shifted);
    assert mant == 0 || mant == 1 || mant == 2 || mant == 3 || mant == 4 || mant == 5 || mant == 6 || mant == 7;
  }

  lemma ReconstructedValue(xmc: word, exp: word, mant: word)
    requires 0 <= xmc <= 7 && 0 <= mant <= 7 && -4 <= exp <= 6
    ensures var p := Pow2(6 - exp);
            Reconstructed(xmc, exp, mant) == (Level(xmc, mant) + p / 2) / p
  {
    LevelRange(xmc, mant);
    var sum := Add(Level(xmc, mant), Rounding(exp));
    var n := Sub(6, exp);
    assert sum == Level(xmc, mant) + Rounding(exp) && n == 6 - exp;
    hide Level, Rounding, Asr, Add, Sub, Pow2;
    AsrIsDivision(sum, n);
  }

  lemma LevelRange(xmc: word, mant: word)
    requires 0 <= xmc <= 7 && 0 <= mant <= 7
    ensures Within(Level(xmc, mant), 28672)
  {
    var shifted: word := (xmc * 2 - 7) * 4096;
    MultRValue(FAC[mant], shifted);
    assert mant == 0 || mant == 1 || mant == 2 || mant == 3 || mant == 4 || mant == 5 || mant == 6 || mant == 7;
  }

  /** Coding and decoding an RPE sample: the error, scaled by the block's exponent, is at most an
      eighth of the decoded maximum plus half a unit of the final shift and four of rounding. */
  lemma SampleError(x: word, exp: word, mant: word)
    requires -4 <= exp <= 6 && 0 <= mant <= 7 && InRange(x * Pow2(6 - exp), mant)
    ensures var p := Pow2(6 - exp);
            Within(p * (Reconstructed(CodedSample(x * p, mant), exp, mant) - x), (9 + mant) * 256 + 4 + p / 2)
  {
    hide Level, CodedSample, Reconstructed;
    var p := Pow2(6 - exp);
    var xn: word := x * p;
    LevelError(xn, mant);
    assert 1 <= p <= 1024 by {
      Pow2Increases(6 - exp, 10);
      Pow2Values();
    }
    var level := Level(CodedSample(xn, mant), mant);
    ReconstructedValue(CodedSample(xn, mant), exp, mant);
    ErrorAlgebra(level, x, p, Reconstructed(CodedSample(xn, mant), exp, mant), (9 + mant) * 256 + 4);
  }

  lemma ErrorAlgebra(level: int, x: int, p: int, y: int, bound: int)
    requires p >= 1 && y == (level + p / 2) / p && Within(level - x * p, bound)
    ensures Within(p * (y - x), bound + p / 2)
  {
    DivBounds(level + p / 2, p, y);
    assert p * (y - x) == p * y - x * p && p * (y + 1) == p * y + p;
  }

  // ---------------------------------------------------------------- 4.2.17 grid positioning

  /** The 13 samples on grid mc of the sub-segment, zeros elsewhere. */
  function Positioned(mc: nat, xmp: seq<word>): (ep: seq<word>)
    requires mc <= 3 && |xmp| == 13
    ensures |ep| == 40
  {
    seq(40, k requires 0 <= k < 40 =>
      if k >= mc && (k - mc) % 3 == 0 && (k - mc) / 3 < 13 then xmp[(k - mc) / 3] else 0)
  }

  /** The commented form: all samples land on the grid, everything off the grid is zero. */
  lemma PositionedOnGrid(mc: nat, xmp: seq<word>)
    requires mc <= 3 && |xmp| == 13
    ensures forall i :: 0 <= i < 13 ==> Positioned(mc, xmp)[mc + 3 * i] == xmp[i]
    ensures forall k :: 0 <= k < 40 && (forall i :: 0 <= i < 13 ==> k != mc + 3 * i) ==> Positioned(mc, xmp)[k] == 0
    ensures forall k :: 0 <= k < 40 && Positioned(mc, xmp)[k] != 0 ==> (k - mc) % 3 == 0
  {
    forall i | 0 <= i < 13
      ensures Positioned(mc, xmp)[mc + 3 * i] == xmp[i]
    {
      assert (mc + 3 * i - mc) / 3 == i;
    }
    forall k | 0 <= k < 40 && (forall i :: 0 <= i < 13 ==> k != mc + 3 * i)
      ensures Positioned(mc, xmp)[k] == 0
    {
      var i := (k - mc) / 3;
      assert k >= mc && (k - mc) % 3 == 0 ==> k == mc + 3 * i;
    }
  }

  // ---------------------------------------------------------------- the sections as functions

  /** What the decoder reconstructs from one sub-segment's RPE parameters. */
  function Decoded(xmaxc: word, mc: nat, xmc: seq<word>): (ep: seq<word>)
    requires 0 <= xmaxc <= 63 && mc <= 3 && IsRpeCode(xmc)
    ensures |ep| == 40
  {
    var (exp, mant) := ExpMant(xmaxc);
    Positioned(mc, AllReconstructed(xmc, exp, mant))
  }

  function AllReconstructed(xmc: seq<word>, exp: word, mant: word): (xmp: seq<word>)
    requires IsRpeCode(xmc) && 0 <= mant <= 7 && -4 <= exp <= 6
    ensures |xmp| == 13
  {
    seq(13, i requires 0 <= i < 13 => Reconstructed(xmc[i], exp, mant))
  }

  /** Thirteen three-bit codes. */
  predicate IsRpeCode(xmc: seq<word>) {
    |xmc| == 13 && forall i :: 0 <= i < 13 ==> 0 <= xmc[i] <= 7
  }

  datatype RpeParams = RpeParams(xmaxc: word, mc: nat, xmc: seq<word>) {
    predicate Valid() {
      0 <= xmaxc <= 63 && mc <= 3 && IsRpeCode(xmc)
    }
  }

  /** The code of a sample in a block with maximum xmax. */
  function QuantisedSample(x: word, xmax: word): (xmc: word)
    requires Abs(x) <= xmax
    ensures 0 <= xmc <= 7
  {
    ScaledSample(x, xmax);
    var (exp, mant) := ExpMant(Xmaxc(xmax));
    ShlIsProduct(x, 6 - exp);
    CodedSample(Shl(x, 6 - exp), mant)
  }

  function Quantised(xm: seq<word>): (r: (word, seq<word>))
    requires |xm| == 13
    ensures 0 <= r.0 <= 63 && IsRpeCode(r.1)
  {
    var xmax := MaxAbs(xm);
    PeakBound(xmax);
    assert forall i :: 0 <= i < 13 ==> xm[i] in xm;
    (Xmaxc(xmax), QuantisedBlock(xm, xmax))
  }

  function QuantisedBlock(xm: seq<word>, xmax: word): (xmc: seq<word>)
    requires |xm| == 13 && forall i :: 0 <= i < 13 ==> Abs(xm[i]) <= xmax
    ensures IsRpeCode(xmc)
  {
    seq(13, i requires 0 <= i < 13 => QuantisedSample(xm[i], xmax))
  }

  /** The RPE parameters of one sub-segment: they always fit their bit fields. */
  function Encoded(e: seq<word>): (r: RpeParams)
    requires |e| == 40
    ensures r.Valid()
  {
    var x := Weighted(e);
    var mc := Grid(x);
    var (xmaxc, xmc) := Quantised(Selected(x, mc));
    RpeParams(xmaxc, mc, xmc)
  }

  lemma CodeOfSample(e: seq<word>, i: nat)
    requires |e| == 40 && i < 13
    ensures var r := Encoded(e);
            var (exp, mant) := ExpMant(r.xmaxc);
            var x := Weighted(e)[r.mc + 3 * i];
            InRange(x * Pow2(6 - exp), mant) && r.xmc[i] == CodedSample(x * Pow2(6 - exp), mant)
  {
    hide Weighted, Grid, Xmaxc, ExpMant, CodedSample, MaxAbs, Shl, Pow2;
    var r := Encoded(e);
    var xm := Selected(Weighted(e), r.mc);
    assert xm[i] in xm;
    ScaledSample(xm[i], MaxAbs(xm));
    var exp := ExpMant(r.xmaxc).0;
    ShlIsProduct(xm[i], 6 - exp);
  }

  lemma DecodedOnGrid(xmaxc: word, mc: nat, xmc: seq<word>, i: nat)
    requires 0 <= xmaxc <= 63 && mc <= 3 && IsRpeCode(xmc) && i < 13
    ensures var (exp, mant) := ExpMant(xmaxc); Decoded(xmaxc, mc, xmc)[mc + 3 * i] == Reconstructed(xmc[i], exp, mant)
  {
    hide ExpMant, Reconstructed;
    var (exp, mant) := ExpMant(xmaxc);
    PositionedOnGrid(mc, AllReconstructed(xmc, exp, mant));
  }

  /** A sample x is decoded as y: within an eighth of the decoded maximum, in the scale of its block. */
  ghost predicate CodedClosely(xmaxc: word, x: int, y: int)
    requires 0 <= xmaxc <= 63
  {
    var (exp, mant) := ExpMant(xmaxc);
    var p := Pow2(6 - exp);
    Within(p * (y - x), (9 + mant) * 256 + 4 + p / 2)
  }

  /** Coding and decoding a sub-segment: each of the 13 samples on the selected grid comes back in its
      place with the error of SampleError; the others come back as zero (PositionedOnGrid). */
  lemma BlockError(e: seq<word>, i: nat)
    requires |e| == 40 && i < 13
    ensures var r := Encoded(e);
            var k := r.mc + 3 * i;
            CodedClosely(r.xmaxc, Weighted(e)[k], Decoded(r.xmaxc, r.mc, r.xmc)[k])
  {
    hide Encoded, ExpMant, Weighted, Decoded, CodedSample, Reconstructed, Pow2;
    var r := Encoded(e);
    var (exp, mant) := ExpMant(r.xmaxc);
    CodeOfSample(e, i);
    DecodedOnGrid(r.xmaxc, r.mc, r.xmc, i);
    SampleError(Weighted(e)[r.mc + 3 * i], exp, mant);
  }

  // ---------------------------------------------------------------- the procedures, on arrays

  /** APCM_quantization_xmaxc_to_exp_mant: the loop ends for every six-bit code. */
  method ComputeExpMant(xmaxc: word) returns (exp: word, mant: word)
    requires 0 <= xmaxc <= 63
    ensures (exp, mant) == ExpMant(xmaxc)
  {
    exp := 0;
    if xmaxc > 15 {
      exp := xmaxc / 8 - 1;
    }
    mant := xmaxc - exp * 8;
    if mant == 0 {
      exp, mant := -4, 7;
    } else {
      while mant <= 7
        invariant 1 <= mant <= 15 && exp <= 6
        invariant exp >= if mant <= 1 then 0 else if mant <= 3 then -1 else if mant <= 7 then -2 else -3
        invariant ExpMant(xmaxc) == Normalised(exp, mant)
        decreases 16 - mant
      {
        mant := mant * 2 + 1;
        exp := exp - 1;
      }
      mant := mant - 8;
    }
  }

  /** The exponent loop of APCM_quantization: `itest` latches once the value has vanished. */
  method ComputeExponent(xmax: word) returns (exp: word)
    requires xmax >= 0
    ensures exp == Exponent(xmax)
  {
    exp := 0;
    var temp: word := xmax / 512;
    var itest := false;
    for i := 0 to 6
      invariant temp >= 0 && 0 <= exp <= i
      invariant itest ==> exp == Exponent(xmax)
      invariant !itest ==> exp == i && Exponent(xmax) == i + Halvings(temp, 6 - i)
    {
      itest := itest || temp <= 0;
      temp := temp / 2;
      if !itest {
        exp := exp + 1;
      }
    }
  }

  /** APCM_quantization. */
  method Quantise(xM: array<word>, xMc: array<word>) returns (mant: word, exp: word, xmaxc: word)
    requires xM.Length == xMc.Length == 13 && xM != xMc
    modifies xMc
    ensures (xmaxc, xMc[..]) == Quantised(xM[..])
    ensures (exp, mant) == ExpMant(xmaxc)
  {
    ghost var xm := xM[..];
    var xmax: word := 0;
    for i := 0 to 13
      invariant xmax == MaxAbs(xM[..i])
    {
      assert xM[..i + 1][..i] == xM[..i];
      var temp := Abs(xM[i]);
      if temp > xmax {
        xmax := temp;
      }
    }
    assert xM[..13] == xm;
    exp := ComputeExponent(xmax);
    ShiftRightFits(xmax, exp + 5);
    xmaxc := Add(Shr(xmax, exp + 5), exp * 8);
    PeakBound(xmax);
    exp, mant := ComputeExpMant(xmaxc);
    assert forall i :: 0 <= i < 13 ==> xM[i] in xm;
    QuantiseBlock(xM, xMc, 6 - exp, mant, xmax);
  }

  method QuantiseBlock(xM: array<word>, xMc: array<word>, temp1: word, mant: word, ghost xmax: word)
    requires xM.Length == xMc.Length == 13 && xM != xMc
    requires forall i :: 0 <= i < 13 ==> Abs(xM[i]) <= xmax
    requires 0 <= temp1 && 0 <= xmax && 0 <= Xmaxc(xmax) <= 63 && (6 - temp1, mant) == ExpMant(Xmaxc(xmax))
    modifies xMc
    ensures xMc[..] == QuantisedBlock(xM[..], xmax)
  {
    hide QuantisedSample, Xmaxc, ExpMant, Abs;
    for i := 0 to 13
      invariant forall k :: 0 <= k < i ==> xMc[k] == QuantisedSample(xM[k], xmax)
    {
      xMc[i] := QuantiseSample(xM[i], temp1, mant, xmax);
    }
  }

  method QuantiseSample(x: word, temp1: word, mant: word, ghost xmax: word) returns (xmc: word)
    requires 0 <= temp1 && Abs(x) <= xmax && 0 <= Xmaxc(xmax) <= 63
    requires (6 - temp1, mant) == ExpMant(Xmaxc(xmax))
    ensures xmc == QuantisedSample(x, xmax)
  {
    ScaledSample(x, xmax);
    ShlIsProduct(x, temp1);
    var temp: word := Shl(x, temp1);
    CodedRange(temp, mant);
    temp := Mult(temp, NRFAC[mant]);
    temp := temp / 4096;
    xmc := temp + 4;
  }

  /** APCM_inverse_quantization. */
  method InverseQuantise(xMc: array<word>, mant: word, exp: word, xMp: array<word>)
    requires xMc.Length == xMp.Length == 13 && xMc != xMp
    requires IsRpeCode(xMc[..]) && 0 <= mant <= 7 && -4 <= exp <= 6
    modifies xMp
    ensures xMp[..] == AllReconstructed(xMc[..], exp, mant)
  {
    ghost var codes := xMc[..];
    var temp1 := FAC[mant];
    var temp2 := Sub(6, exp);
    var temp3 := Asl(1, Sub(temp2, 1));
    assert temp3 == Rounding(exp);
    for i := 0 to 13
      invariant xMc[..] == codes
      invariant forall k :: 0 <= k < i ==> xMp[k] == Reconstructed(codes[k], exp, mant)
    {
      assert xMc[i] == codes[i];
      var temp: word := xMc[i] * 2 - 7;
      temp := temp * 4096;
      temp := MultR(temp1, temp);
      temp := Add(temp, temp3);
      xMp[i] := Asr(temp, temp2);
    }
  }

  /** RPE_grid_positioning: the switch jumps into the loop, so that the first pass writes only
      some of the zeros; `start` cells of ep precede the sub-segment. */
  method GridPositioning(mc: nat, xMp: array<word>, ep: array<word>, start: nat)
    requires mc <= 3 && xMp.Length == 13 && xMp != ep && start + 40 <= ep.Length
    modifies ep
    ensures ep[start..start + 40] == Positioned(mc, xMp[..])
    ensures forall k :: 0 <= k < ep.Length && !(start <= k < start + 40) ==> ep[k] == old(ep[k])
  {
    ghost var p := Positioned(mc, xMp[..]);
    var k := 0;
    if mc == 3 {
      ep[start] := 0;
      k := 1;
    }
    var zeros := if mc >= 2 then 2 else mc;
    var i := 13;
    while i > 0
      invariant 0 <= i <= 13
      invariant if i == 13 then k + zeros == mc else zeros == 2 && k + zeros == mc + 3 * (13 - i)
      invariant 0 <= zeros <= 2 && 0 <= k && (i == 13 ==> k <= 1)
      invariant forall j :: 0 <= j < k ==> ep[start + j] == p[j]
      invariant forall j :: 0 <= j < ep.Length && !(start <= j < start + 40) ==> ep[j] == old(ep[j])
    {
      if zeros == 2 {
        ep[start + k] := 0;
        k := k + 1;
      }
      if zeros >= 1 {
        ep[start + k] := 0;
        k := k + 1;
      }
      assert k == mc + 3 * (13 - i) && (k - mc) / 3 == 13 - i;
      ep[start + k] := xMp[13 - i];
      k := k + 1;
      zeros := 2;
      i := i - 1;
    }
    var m := mc + 1;
    while m < 4
      invariant mc + 1 <= m <= 4 && k == 37 + m - 1 && start + k <= start + 40
      invariant forall j :: 0 <= j < k ==> ep[start + j] == p[j]
      invariant forall j :: 0 <= j < ep.Length && !(start <= j < start + 40) ==> ep[j] == old(ep[j])
    {
      ep[start + k] := 0;
      k := k + 1;
      m := m + 1;
    }
    assert k == 40;
  }

  /** Gsm_RPE_Encoding: codes the sub-segment in e[5..45] and replaces it by what the decoder will
      reconstruct; the guard cells stay zero. */
  method Encode(e: array<word>) returns (xmaxc: word, mc: nat, xMc: array<word>)
    requires Guarded(e)
    modifies e
    ensures Guarded(e) && fresh(xMc) && xMc.Length == 13
    ensures RpeParams(xmaxc, mc, xMc[..]) == old(Encoded(Middle(e)))
    ensures RpeParams(xmaxc, mc, xMc[..]).Valid() && Middle(e) == Decoded(xmaxc, mc, xMc[..])
  {
    xMc := new word[13];
    var mant, exp;
    mc, mant, exp, xmaxc := Code(e, xMc);
    var xMp := new word[13];
    InverseQuantise(xMc, mant, exp, xMp);
    GridPositioning(mc, xMp, e, 5);
  }

  /** The first half of Gsm_RPE_Encoding, which only reads e. */
  method Code(e: array<word>, xMc: array<word>) returns (mc: nat, mant: word, exp: word, xmaxc: word)
    requires Guarded(e) && xMc.Length == 13 && xMc != e
    modifies xMc
    ensures RpeParams(xmaxc, mc, xMc[..]) == Encoded(Middle(e)) && (exp, mant) == ExpMant(xmaxc)
  {
    var x, xM := new word[40], new word[13];
    WeightingFilter(e, x);
    mc := GridSelection(x, xM);
    mant, exp, xmaxc := Quantise(xM, xMc);
  }

  /** Gsm_RPE_Decoding. */
  method Decode(xmaxcr: word, mcr: nat, xMcr: array<word>, erp: array<word>)
    requires xMcr.Length == 13 && erp.Length == 40 && xMcr != erp
    requires 0 <= xmaxcr <= 63 && mcr <= 3 && IsRpeCode(xMcr[..])
    modifies erp
    ensures erp[..] == Decoded(xmaxcr, mcr, xMcr[..])
  {
    var xMp := new word[13];
    var exp, mant := ComputeExpMant(xmaxcr);
    InverseQuantise(xMcr, mant, exp, xMp);
    GridPositioning(mcr, xMp, erp, 0);
    assert erp[0..40] == erp[..];
  }
}
