/** LPC analysis (gsm/src/lpc.c): dynamic scaling and autocorrelation, the Schur recursion, and
  the coding of the log-area ratios. */
module Lpc {
  import opened Words
  import ShortTerm

  // ---------------------------------------------------------------- 4.2.4 scaling

  /** The number of bits to scale down, at most four; zero or negative means "leave alone". */
  function ScaleAuto(smax: word): (n: int)
    requires smax >= 0
    ensures n <= 4
    ensures n <= 0 ==> smax < 2048
    ensures n > 0 ==> smax < 2048 * Pow2(n)
  {
    if smax == 0 then 0 else
      var shifted: longword := smax * 0x1_0000;
      ScaleAutoBound(smax);
      4 - Norm(shifted)
  }

  lemma ScaleAutoBound(smax: word)
    requires smax > 0
    ensures var n := 4 - Norm(smax * 0x1_0000);
            if n <= 0 then smax < 2048 else smax < 2048 * Pow2(n)
  {
    var k := Norm(smax * 0x1_0000);
    HighBits(smax, Pow2(k));
    Pow2Values();
    if k > 4 {
      Pow2Increases(4, k);
      MulMono(16, Pow2(k), smax);
    }
  }

  /** One scaled sample: rounding division by 2^n. */
  function ScaledDown(x: word, n: nat): (y: word)
    requires 1 <= n <= 4
    ensures y == (x + Pow2(n - 1)) / Pow2(n)
  {
    Pow2Values();
    assert n == 1 || n == 2 || n == 3 || n == 4;
    var factor: word := 16384 / Pow2(n - 1);
    MultRValue(x, factor);
    MultR(x, factor)
  }

  function ScaledBy(s: seq<word>, n: int): (t: seq<word>)
    requires n <= 4
    ensures |t| == |s|
  {
    if n <= 0 then s else seq(|s|, i requires 0 <= i < |s| => ScaledDown(s[i], n))
  }

  /** The signal the autocorrelation is computed from. */
  function Scaled(s: seq<word>): (t: seq<word>)
    ensures |t| == |s|
  {
    ScaledBy(s, ScaleAuto(MaxAbs(s)))
  }

  lemma ScaledIsSmall(s: seq<word>)
    ensures forall i :: 0 <= i < |s| ==> Within(Scaled(s)[i], 2048)
  {
    var n := ScaleAuto(MaxAbs(s));
    forall i | 0 <= i < |s|
      ensures Within(Scaled(s)[i], 2048)
    {
      assert s[i] in s;
      if n > 0 {
        ScaledBound(s[i], n);
      }
    }
  }

  lemma ScaledBound(x: word, n: nat)
    requires 1 <= n <= 4 && Abs(x) < 2048 * Pow2(n)
    ensures -2048 <= ScaledDown(x, n) <= 2048
  {
    Pow2Values();
    assert n == 1 || n == 2 || n == 3 || n == 4;
  }

  // ---------------------------------------------------------------- 4.2.4 autocorrelation

  /** Sum of s[i] * s[i - k] for k <= i < n. */
  function Corr(s: seq<word>, k: nat, n: nat): int
    requires n <= |s|
  {
    if n <= k then 0 else
      var a: int, b: int := s[n - 1], s[n - 1 - k];
      Corr(s, k, n - 1) + a * b
  }

  lemma {:induction false} CorrBound(s: seq<word>, k: nat, n: nat)
    requires n <= |s| && forall i :: 0 <= i < n ==> Within(s[i], 2048)
    ensures -0x40_0000 * n <= Corr(s, k, n) <= 0x40_0000 * n
  {
    if n > k {
      CorrBound(s, k, n - 1);
      ProductBound(s[n - 1], s[n - 1 - k], 2048, 2048);
    }
  }

  lemma {:induction false} EnergyIncreases(s: seq<word>, m: nat, n: nat)
    requires m <= n <= |s|
    ensures 0 <= Corr(s, 0, m) <= Corr(s, 0, n)
    decreases n
  {
    if m < n {
      EnergyIncreases(s, m, n - 1);
      SquareNonNegative(s[n - 1]);
    } else if m > 0 {
      EnergyIncreases(s, m - 1, n - 1);
      SquareNonNegative(s[n - 1]);
    }
  }

  lemma SquareNonNegative(a: int)
    ensures a * a >= 0
  {
  }

  lemma TwiceProduct(a: int, b: int)
    ensures -(a * a + b * b) <= 2 * (a * b) <= a * a + b * b
  {
    SquareNonNegative(a - b);
    SquareNonNegative(a + b);
    assert (a - b) * (a - b) == a * a - 2 * (a * b) + b * b;
    assert (a + b) * (a + b) == a * a + 2 * (a * b) + b * b;
  }

  /** Twice a correlation is bounded by the energies of the two stretches that are multiplied. */
  lemma {:induction false} CorrByEnergies(s: seq<word>, k: nat, n: nat)
    requires k <= n <= |s|
    ensures var e := Corr(s, 0, n) + Corr(s, 0, n - k);
            -e <= 2 * Corr(s, k, n) <= e
    decreases n
  {
    if n == k {
      EnergyIncreases(s, 0, n);
    } else {
      CorrByEnergies(s, k, n - 1);
      TwiceProduct(s[n - 1], s[n - 1 - k]);
    }
  }

  /** Cauchy-Schwarz for every lag: no autocorrelation exceeds the energy. */
  lemma CauchySchwarz(s: seq<word>, k: nat)
    requires k <= |s|
    ensures -Corr(s, 0, |s|) <= Corr(s, k, |s|) <= Corr(s, 0, |s|)
  {
    CorrByEnergies(s, k, |s|);
    EnergyIncreases(s, |s| - k, |s|);
  }

  /** Energy of the sum of the signal and itself k samples later, over the first n samples. */
  function EchoEnergy(s: seq<word>, k: nat, n: nat): int
    requires n <= |s|
  {
    if n == 0 then 0 else
      var a: int := s[n - 1] + (if n > k then s[n - 1 - k] else 0) as int;
      EchoEnergy(s, k, n - 1) + a * a
  }

  /** What a correlation measures: an echo k samples later adds its own energy, and twice the
      correlation at lag k. */
  lemma {:induction false} EchoCorrelates(s: seq<word>, k: nat, n: nat)
    requires n <= |s|
    ensures EchoEnergy(s, k, n) == Corr(s, 0, n) + (if n > k then Corr(s, 0, n - k) else 0) + 2 * Corr(s, k, n)
  {
    if n > 0 {
      EchoCorrelates(s, k, n - 1);
      var a: int := s[n - 1];
      if n > k {
        var b: int := s[n - 1 - k];
        assert (a + b) * (a + b) == a * a + 2 * (a * b) + b * b;
      }
    }
  }

  /** L_ACF[0..8] of a frame. */
  function Autocorrelations(s: seq<word>): (acf: seq<longword>)
    requires |s| == 160
    ensures |acf| == 9
  {
    ScaledIsSmall(s);
    NineLags(Scaled(s))
  }

  /** A frame scaled to at most eleven bits. */
  predicate Small(t: seq<word>) {
    |t| == 160 && forall i :: 0 <= i < 160 ==> Within(t[i], 2048)
  }

  function NineLags(t: seq<word>): (acf: seq<longword>)
    requires Small(t)
    ensures |acf| == 9
  {
    seq(9, k requires 0 <= k < 9 => TwiceCorr(t, k))
  }

  function TwiceCorr(t: seq<word>, k: nat): (acf: longword)
    requires Small(t)
  {
    CorrBound(t, k, 160);
    2 * Corr(t, k, 160)
  }

  /** What the Schur recursion relies on: for every frame the zeroth value dominates, so that
      normalising it cannot overflow any other. */
  lemma AcfDominated(s: seq<word>)
    requires |s| == 160
    ensures Dominated(Autocorrelations(s))
  {
    var t, acf := Scaled(s), Autocorrelations(s);
    EnergyIncreases(t, 0, 160);
    forall k | 0 <= k < 9
      ensures Within(acf[k], acf[0])
    {
      CauchySchwarz(t, k);
    }
  }

  ghost predicate Dominated(acf: seq<longword>) {
    |acf| == 9 && forall k :: 0 <= k < 9 ==> Within(acf[k], acf[0])
  }

  // ---------------------------------------------------------------- 4.2.5 reflection coefficients

  /** The normalised 16-bit correlations.  The shift at the line marked "? overflow ?" fits a
      longword because of `Dominated`. */
  function Normalised(acf: seq<longword>): (a: seq<word>)
    requires Dominated(acf) && acf[0] != 0
    ensures |a| == 9 && 0x4000 <= a[0]
  {
    seq(9, i requires 0 <= i < 9 => HighWord(acf[i], acf[0]))
  }

  function HighWord(x: longword, x0: longword): (a: word)
    requires x0 > 0 && Within(x, x0)
    ensures x == x0 ==> a >= 0x4000
  {
    ShiftFits(x, x0, Norm(x0));
    var shifted: longword := x * Pow2(Norm(x0));
    shifted / 0x1_0000
  }

  lemma ShiftFits(x: int, x0: int, n: nat)
    requires x0 > 0 && Within(x, x0) && Normalises(x0, n)
    ensures Within(x * Pow2(n), MAX_LONGWORD)
  {
    MulMono(x, x0, Pow2(n));
    MulMono(-x0, x, Pow2(n));
    assert -x0 * Pow2(n) == -(x0 * Pow2(n));
  }

  /** r[n] from the first two values of the recursion. */
  function Reflection(p0: word, p1: word): (r: ShortTerm.coef)
    requires Abs(p1) <= p0
  {
    var q := Quotient(Abs(p1), p0);
    if p1 > 0 then -q else q
  }

  function NextP(p: seq<word>, k: seq<word>, r: ShortTerm.coef, n: nat): (p': seq<word>)
    requires |p| == |k| == 9 && 1 <= n <= 8
    ensures |p'| == 9
  {
    seq(9, m requires 0 <= m < 9 =>
      if m == 0 then Add(p[0], MultR(p[1], r))
      else if m <= 8 - n then Add(p[m + 1], MultR(k[m], r))
      else p[m])
  }

  function NextK(p: seq<word>, k: seq<word>, r: ShortTerm.coef, n: nat): (k': seq<word>)
    requires |p| == |k| == 9 && 1 <= n <= 8
    ensures |k'| == 9
  {
    seq(9, m requires 0 <= m < 9 =>
      if 1 <= m <= 8 - n then Add(k[m], MultR(p[m + 1], r)) else k[m])
  }

  /** r[n..8] of the Schur recursion. */
  function Schur(p: seq<word>, k: seq<word>, n: nat): (r: seq<ShortTerm.coef>)
    requires |p| == |k| == 9 && 1 <= n <= 8
    ensures |r| == 9 - n
    decreases 8 - n
  {
    if Abs(p[1]) > p[0] then seq(9 - n, _ => 0)
    else
      var r := Reflection(p[0], p[1]);
      if n == 8 then [r] else [r] + Schur(NextP(p, k, r, n), NextK(p, k, r, n), n + 1)
  }

  /** K[0] and K[8] are never used. */
  function InitialK(a: seq<word>): (k: seq<word>)
    requires |a| == 9
    ensures |k| == 9
  {
    [0] + a[1..8] + [0]
  }

  function ReflectionCoefficients(acf: seq<longword>): (r: seq<ShortTerm.coef>)
    requires Dominated(acf)
    ensures |r| == 8
  {
    if acf[0] == 0 then seq(8, _ => 0)
    else
      var a := Normalised(acf);
      Schur(a, InitialK(a), 1)
  }

  /** The prediction error power P[0] never grows and never turns negative, and its update does
      not saturate: the recursion is stable in 16 bits. */
  lemma ErrorPowerShrinks(p0: word, p1: word)
    requires Abs(p1) <= p0
    ensures var r := Reflection(p0, p1);
            0 <= Add(p0, MultR(p1, r)) <= p0 && Add(p0, MultR(p1, r)) == p0 + MultR(p1, r)
  {
    var r := Reflection(p0, p1);
    MultRShrinks(p1, r);
    assert r == 0 || (p1 > 0 && r < 0) || (p1 < 0 && r > 0);
  }

  // ---------------------------------------------------------------- 4.2.6 log-area ratios

  function ToLar(r: ShortTerm.coef): (lar: word)
    ensures lar != MIN_WORD
    ensures r >= 0 ==> lar >= 0
    ensures r <= 0 ==> lar <= 0
  {
    var temp := Abs(r);
    var temp': int := if temp < 22118 then temp / 2
                          else if temp < 31130 then temp - 11059
                          else (temp - 26112) * 4;
    if r < 0 then -temp' else temp'
  }

  /** The decoder's LARp_to_rp undoes the transformation: exactly for strong reflections, and up to
      the bit dropped by the halving for weak ones. */
  lemma LarRoundTrip(r: ShortTerm.coef)
    ensures var back := ShortTerm.LarpToRp(ToLar(r));
            Abs(back) == Abs(r) - (if Abs(r) < 22118 then Abs(r) % 2 else 0) && (r >= 0 ==> back >= 0) &&
            (r <= 0 ==> back <= 0)
  {
  }

  // ---------------------------------------------------------------- 4.2.7 quantization and coding

  const A: seq<word> := [20480, 20480, 20480, 20480, 13964, 15360, 8534, 9036]

  /** The quantized value before limiting. */
  function Level(lar: word, i: nat): (level: word)
    requires i < 8
  {
    Add(Add(Mult(A[i], lar), ShortTerm.B[i]), 256) / 512
  }

  function Quantise(lar: word, i: nat): (larc: word)
    requires i < 8
    ensures 0 <= larc <= ShortTerm.MAC[i] - ShortTerm.MIC[i]
  {
    var level := Level(lar, i);
    var mac, mic := ShortTerm.MAC[i], ShortTerm.MIC[i];
    assert i == 0 || i == 1 || i == 2 || i == 3 || i == 4 || i == 5 || i == 6 || i == 7;
    if level > mac then mac - mic else if level < mic then 0 else level - mic
  }

  /** Half a quantization step, in the scale of the log-area ratios. */
  function HalfStep(i: nat): int
    requires i < 8
  {
    match i
    case 0 => 409 case 1 => 409 case 2 => 409 case 3 => 409
    case 4 => 600 case 5 => 546 case 6 => 982 case 7 => 928
  }

  /** Coding and decoding a log-area ratio that is not limited moves it by at most half a
      quantization step, plus five for the roundings on both sides. */
  lemma LarQuantizationError(lar: word, i: nat)
    requires i < 8 && lar != MIN_WORD
    requires ShortTerm.MIC[i] <= Level(lar, i) <= ShortTerm.MAC[i]
    ensures -HalfStep(i) - 5 <= ShortTerm.DecodeLar(Quantise(lar, i), i) - lar <= HalfStep(i) + 5
  {
    if i < 4 {
      QuantizationErrorLow(lar, i);
    } else {
      QuantizationErrorHigh(lar, i);
    }
  }

  lemma QuantizationErrorLow(lar: word, i: nat)
    requires i < 4 && lar != MIN_WORD
    requires ShortTerm.MIC[i] <= Level(lar, i) <= ShortTerm.MAC[i]
    ensures -HalfStep(i) - 5 <= ShortTerm.DecodeLar(Quantise(lar, i), i) - lar <= HalfStep(i) + 5
  {
    MultValue(A[i], lar);
    var q: word := Level(lar, i);
    var larc := Quantise(lar, i);
    ShortTerm.DecodeLarShiftIsExact(larc, i);
    var temp2 := Sub(q * 1024, ShortTerm.B[i] * 2);
    MultRValue(ShortTerm.INVA[i], temp2);
    assert i == 0 || i == 1 || i == 2 || i == 3;
  }

  lemma QuantizationErrorHigh(lar: word, i: nat)
    requires 4 <= i < 8 && lar != MIN_WORD
    requires ShortTerm.MIC[i] <= Level(lar, i) <= ShortTerm.MAC[i]
    ensures -HalfStep(i) - 5 <= ShortTerm.DecodeLar(Quantise(lar, i), i) - lar <= HalfStep(i) + 5
  {
    MultValue(A[i], lar);
    var q: word := Level(lar, i);
    var larc := Quantise(lar, i);
    ShortTerm.DecodeLarShiftIsExact(larc, i);
    var temp2 := Sub(q * 1024, ShortTerm.B[i] * 2);
    MultRValue(ShortTerm.INVA[i], temp2);
    assert i == 4 || i == 5 || i == 6 || i == 7;
  }

  function Lars(r: seq<ShortTerm.coef>): (larc: seq<word>)
    requires |r| == 8
    ensures |larc| == 8
    ensures forall i :: 0 <= i < 8 ==> 0 <= larc[i] <= ShortTerm.MAC[i] - ShortTerm.MIC[i]
  {
    seq(8, i requires 0 <= i < 8 => Quantise(ToLar(r[i]), i))
  }

  /** Gsm_LPC_Analysis: the eight codes of a frame. */
  function Analysis(s: seq<word>): (larc: seq<word>)
    requires |s| == 160
    ensures |larc| == 8
    ensures forall i :: 0 <= i < 8 ==> 0 <= larc[i] <= ShortTerm.MAC[i] - ShortTerm.MIC[i]
  {
    AcfDominated(s);
    Lars(ReflectionCoefficients(Autocorrelations(s)))
  }

  // ---------------------------------------------------------------- the procedures, on arrays

  function ShiftedUp(t: seq<word>, n: int): (r: seq<word>)
    ensures |r| == |t|
  {
    if n <= 0 then t else seq(|t|, i requires 0 <= i < |t| => ToWord(t[i] * Pow2(n)))
  }

  /** The signal left behind by Autocorrelation: scaled down, then shifted up again with the upper
      bits dropped. */
  function Rescaled(s: seq<word>): (t: seq<word>)
    ensures |t| == |s|
  {
    ShiftedUp(Scaled(s), ScaleAuto(MaxAbs(s)))
  }

  /** The four SCALE loops, one for each number of bits. */
  method ScaleDown(s: array<word>, n: int)
    requires n <= 4
    modifies s
    ensures s[..] == old(ScaledBy(s[..], n))
  {
    if n > 0 {
      Pow2Values();
      assert n == 1 || n == 2 || n == 3 || n == 4;
      var factor: word := 16384 / Pow2(n - 1);
      for k := 0 to s.Length
        invariant forall i :: 0 <= i < k ==> s[i] == ScaledDown(old(s[i]), n)
        invariant forall i :: k <= i < s.Length ==> s[i] == old(s[i])
      {
        s[k] := MultR(s[k], factor);
      }
    }
  }

  method ShiftUp(s: array<word>, n: int)
    modifies s
    ensures s[..] == old(ShiftedUp(s[..], n))
  {
    if n > 0 {
      for k := 0 to s.Length
        invariant forall i :: 0 <= i < k ==> s[i] == ToWord(old(s[i]) * Pow2(n))
        invariant forall i :: k <= i < s.Length ==> s[i] == old(s[i])
      {
        s[k] := ToWord(s[k] * Pow2(n));
      }
    }
  }

  method Autocorrelation(s: array<word>, lacf: array<longword>)
    requires s.Length == 160 && lacf.Length == 9
    modifies s, lacf
    ensures lacf[..] == old(Autocorrelations(s[..]))
    ensures s[..] == old(Rescaled(s[..]))
  {
    ghost var t := Scaled(s[..]);
    var smax: int := FindMaxAbs(s);
    var shifted: longword := smax * 0x1_0000;
    var scalauto := if smax == 0 then 0 else 4 - Norm(shifted);
    assert scalauto == ScaleAuto(smax);
    ScaledIsSmall(s[..]);
    ScaleDown(s, scalauto);
    assert s[..] == t;
    assert forall i :: 0 <= i < 160 ==> Within(t[i], 2048);
    Accumulate(s, lacf);
    ShiftUp(s, scalauto);
  }

  /** The products are accumulated sample by sample, each for all lags that reach back into the
      frame; no partial sum leaves the 32 bits. */
  method Accumulate(s: array<word>, lacf: array<longword>)
    requires s.Length == 160 && lacf.Length == 9 && Small(s[..])
    modifies lacf
    ensures lacf[..] == NineLags(s[..])
  {
    for k := 0 to 9
      invariant forall m :: 0 <= m < k ==> lacf[m] == 0
    {
      lacf[k] := 0;
    }
    for i := 0 to 160
      invariant forall m :: 0 <= m < 9 ==> lacf[m] == Corr(s[..], m, i)
    {
      AccumulateRow(s, lacf, i);
    }
    for k := 0 to 9
      invariant forall m :: 0 <= m < k ==> lacf[m] == TwiceCorr(s[..], m)
      invariant forall m :: k <= m < 9 ==> lacf[m] == Corr(s[..], m, 160)
    {
      CorrBound(s[..], k, 160);
      lacf[k] := lacf[k] * 2;
    }
  }

  /** One row STEP(0); STEP(1); ... up to the lag that reaches the first sample. */
  method AccumulateRow(s: array<word>, lacf: array<longword>, i: nat)
    requires s.Length == 160 && lacf.Length == 9 && Small(s[..]) && i < 160
    requires forall m :: 0 <= m < 9 ==> lacf[m] == Corr(s[..], m, i)
    modifies lacf
    ensures forall m :: 0 <= m < 9 ==> lacf[m] == Corr(s[..], m, i + 1)
  {
    ghost var t := s[..];
    var lags := if i < 8 then i + 1 else 9;
    for k := 0 to lags
      invariant forall m :: 0 <= m < k ==> lacf[m] == Corr(t, m, i + 1)
      invariant forall m :: k <= m < 9 ==> lacf[m] == Corr(t, m, i)
    {
      CorrBound(t, k, i + 1);
      var sl: int, sp: int := s[i], s[i - k];
      lacf[k] := lacf[k] + sl * sp;
    }
    forall m | lags <= m < 9
      ensures Corr(t, m, i + 1) == Corr(t, m, i)
    {
    }
  }

  /** Reflection_coefficients: the recursion runs in place over P and K.  Its caller passes the
      result of Autocorrelation, which is Dominated. */
  method Reflect(lacf: array<longword>, r: array<word>)
    requires lacf.Length == 9 && Dominated(lacf[..]) && r.Length == 8
    modifies r
    ensures r[..] == ReflectionCoefficients(lacf[..])
  {
    ghost var l := lacf[..];
    if lacf[0] == 0 {
      for i := 0 to 8
        invariant forall m :: 0 <= m < i ==> r[m] == 0
      {
        r[i] := 0;
      }
      return;
    }
    var temp := Norm(lacf[0]);
    var P, K := new word[9], new word[9];
    for i := 0 to 9
      invariant lacf[..] == l && forall m :: 0 <= m < i ==> P[m] == HighWord(l[m], l[0])
    {
      ShiftFits(lacf[i], lacf[0], temp);
      var shifted: longword := lacf[i] * Pow2(temp);
      P[i] := shifted / 0x1_0000;
    }
    assert P[..] == Normalised(l);
    K[0], K[8] := 0, 0;
    for i := 1 to 8
      invariant K[0] == K[8] == 0 && forall m :: 1 <= m < i ==> K[m] == P[m]
      invariant P[..] == Normalised(l)
    {
      K[i] := P[i];
    }
    assert K[..] == InitialK(P[..]);
    Recur(P, K, r);
  }

  method ZeroFrom(r: array<word>, from: nat)
    requires from <= r.Length
    modifies r
    ensures r[..] == old(r[..from]) + seq(r.Length - from, _ => 0)
  {
    for i := from to r.Length
      invariant r[..i] == old(r[..from]) + seq(i - from, _ => 0)
    {
      r[i] := 0;
    }
    assert r[..r.Length] == r[..];
  }

  method Recur(P: array<word>, K: array<word>, r: array<word>)
    requires P.Length == K.Length == 9 && r.Length == 8 && P != K && P != r && K != r
    modifies P, K, r
    ensures r[..] == old(Schur(P[..], K[..], 1))
  {
    hide Schur, NextP, NextK;
    ghost var all: seq<word> := Schur(P[..], K[..], 1);
    assert r[..0] + all == all;
    for n := 1 to 9
      invariant n < 9 ==> all == r[..n - 1] + Schur(P[..], K[..], n)
      invariant n == 9 ==> all == r[..]
    {
      ghost var done, p, k := r[..n - 1], P[..], K[..];
      SchurUnfold(p, k, n, done);
      var temp := Abs(P[1]);
      if P[0] < temp {
        ZeroFrom(r, n - 1);
        return;
      }
      var q := Div(temp, P[0]);
      r[n - 1] := if P[1] > 0 then -q else q;
      assert r[n - 1] == Reflection(P[0], P[1]);
      assert r[..n] == done + [r[n - 1]];
      if n == 8 {
        assert r[..8] == r[..];
        return;
      }
      SchurStep(P, K, r[n - 1], n);
    }
  }

  lemma SchurUnfold(p: seq<word>, k: seq<word>, n: nat, done: seq<word>)
    requires |p| == |k| == 9 && 1 <= n <= 8
    ensures Abs(p[1]) > p[0] ==> done + Schur(p, k, n) == done + seq(9 - n, _ => 0)
    ensures Abs(p[1]) <= p[0] ==>
              var r := Reflection(p[0], p[1]);
              done + Schur(p, k, n)
              == if n == 8 then done + [r]
                 else (done + [r]) + Schur(NextP(p, k, r, n), NextK(p, k, r, n), n + 1)
  {
  }

  /** One step of the recursion; position m of P is overwritten only after it has been read. */
  method SchurStep(P: array<word>, K: array<word>, r: word, n: nat)
    requires P.Length == K.Length == 9 && P != K && 1 <= n < 8 && r != MIN_WORD
    modifies P, K
    ensures P[..] == old(NextP(P[..], K[..], r, n))
    ensures K[..] == old(NextK(P[..], K[..], r, n))
  {
    hide MultR, Add;
    ghost var p, k := P[..], K[..];
    var temp := MultR(P[1], r);
    P[0] := Add(P[0], temp);
    for m := 1 to 9 - n
      invariant P[0] == Add(p[0], MultR(p[1], r)) && K[0] == k[0]
      invariant forall i :: 1 <= i < m ==> P[i] == Add(p[i + 1], MultR(k[i], r))
      invariant forall i :: m <= i < 9 ==> P[i] == p[i]
      invariant forall i :: 1 <= i < m ==> K[i] == Add(k[i], MultR(p[i + 1], r))
      invariant forall i :: m <= i < 9 ==> K[i] == k[i]
    {
      var temp := MultR(K[m], r);
      var next := MultR(P[m + 1], r);
      P[m] := Add(P[m + 1], temp);
      K[m] := Add(K[m], next);
    }
  }

  /** Transformation_to_Log_Area_Ratios, in place. */
  method Transform(lar: array<word>)
    requires lar.Length == 8 && forall i :: 0 <= i < 8 ==> lar[i] != MIN_WORD
    modifies lar
    ensures forall i :: 0 <= i < 8 ==> lar[i] == old(ToLar(lar[i]))
  {
    for i := 0 to 8
      invariant forall k :: 0 <= k < i ==> lar[k] == ToLar(old(lar[k]))
      invariant forall k :: i <= k < 8 ==> lar[k] == old(lar[k])
    {
      var temp: int := Abs(lar[i]);
      if temp < 22118 {
        temp := temp / 2;
      } else if temp < 31130 {
        temp := temp - 11059;
      } else {
        temp := (temp - 26112) * 4;
      }
      lar[i] := if lar[i] < 0 then -temp else temp;
    }
  }

  /** Quantization_and_coding, in place. */
  method Code(lar: array<word>)
    requires lar.Length == 8
    modifies lar
    ensures forall i :: 0 <= i < 8 ==> lar[i] == old(Quantise(lar[i], i))
  {
    for i := 0 to 8
      invariant forall k :: 0 <= k < i ==> lar[k] == Quantise(old(lar[k]), k)
      invariant forall k :: i <= k < 8 ==> lar[k] == old(lar[k])
    {
      var temp := Mult(A[i], lar[i]);
      temp := Add(temp, ShortTerm.B[i]);
      temp := Add(temp, 256);
      temp := temp / 512;
      assert temp == Level(lar[i], i);
      var mac, mic := ShortTerm.MAC[i], ShortTerm.MIC[i];
      lar[i] := if temp > mac then mac - mic else if temp < mic then 0 else temp - mic;
    }
  }

  /** Gsm_LPC_Analysis. */
  method Analyse(s: array<word>, larc: array<word>)
    requires s.Length == 160 && larc.Length == 8 && s != larc
    modifies s, larc
    ensures larc[..] == old(Analysis(s[..]))
    ensures s[..] == old(Rescaled(s[..]))
  {
    ghost var s0 := s[..];
    var lacf := new longword[9];
    Autocorrelation(s, lacf);
    AcfDominated(s0);
    Reflect(lacf, larc);
    ghost var r := ReflectionCoefficients(Autocorrelations(s0));
    assert forall i :: 0 <= i < 8 ==> larc[i] == r[i];
    Transform(larc);
    Code(larc);
    assert larc[..] == Lars(r);
  }
}
