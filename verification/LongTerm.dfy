/** Long-term prediction (gsm/src/long_term.c): search of lag and gain, analysis filtering in the
  encoder and synthesis filtering in the decoder. */
module LongTerm {
  import opened Words

  /** The last 120 samples of the reconstructed short-term residual: dp[-120..-1]. */
  type History = h: seq<word> | |h| == 120 witness seq(120, _ => 0)

  /** One sub-segment of 40 samples. */
  type Segment = s: seq<word> | |s| == 40 witness seq(40, _ => 0)

  /** Tables 4.3a and 4.3b. */
  const DLB: seq<word> := [6554, 16384, 26214, 32767]
  const QLB: seq<word> := [3277, 11469, 21299, 32767]

  // ---------------------------------------------------------------- 4.2.11 scaling

  /** Number of bits by which d is scaled down so that nine magnitude bits remain. */
  function Scale(dmax: word): (scal: nat)
    requires dmax >= 0
    ensures scal <= 6
  {
    var shifted: longword := dmax * 0x1_0000;
    var temp := if dmax == 0 then 0 else Norm(shifted);
    if temp > 6 then 0 else 6 - temp
  }

  lemma ScaleBound(dmax: word)
    requires dmax >= 0
    ensures dmax < 512 * Pow2(Scale(dmax))
  {
    Pow2Values();
    if dmax > 0 {
      var shifted: longword := dmax * 0x1_0000;
      var temp := Norm(shifted);
      HighBits(dmax, Pow2(temp));
      if temp > 6 {
        Pow2Increases(6, temp);
        MulMono(64, Pow2(temp), dmax);
      } else {
        assert temp == 0 || temp == 1 || temp == 2 || temp == 3 || temp == 4 || temp == 5 || temp == 6;
      }
    }
  }

  /** The working array wt: every value has at most nine bits and a sign. */
  function Work(d: Segment): (wt: Segment)
    ensures forall k :: 0 <= k < 40 ==> Within(wt[k], 512)
  {
    WorkBound(d);
    seq(40, k requires 0 <= k < 40 => Shr(d[k], Scale(MaxAbs(d))))
  }

  lemma WorkBound(d: Segment)
    ensures forall k :: 0 <= k < 40 ==> Within(Shr(d[k], Scale(MaxAbs(d))), 512)
  {
    var n := Scale(MaxAbs(d));
    ScaleBound(MaxAbs(d));
    forall k | 0 <= k < 40
      ensures Within(Shr(d[k], n), 512)
    {
      assert d[k] in d;
      ShiftedBound(d[k], n);
    }
  }

  lemma {:induction false} ShiftedBound(x: int, n: nat)
    requires -512 * Pow2(n) <= x <= 512 * Pow2(n)
    ensures Within(Shr(x, n), 512)
    decreases n
  {
    if n > 0 {
      ShiftedBound(x / 2, n - 1);
    }
  }

  // ---------------------------------------------------------------- 4.2.11 search

  /** Sum of wt[k] * dp[k - lag] for k < n. */
  function PartialCorr(wt: Segment, h: History, lag: nat, n: nat): int
    requires 40 <= lag <= 120 && n <= 40
    decreases n, wt
  {
    if n == 0 then 0 else PartialCorr(wt, h, lag, n - 1) + Times(wt[n - 1], h[120 + (n - 1) - lag])
  }

  lemma {:induction false} PartialCorrBound(wt: Segment, h: History, lag: nat, n: nat)
    requires 40 <= lag <= 120 && n <= 40 && forall k :: 0 <= k < 40 ==> Within(wt[k], 512)
    ensures Within(PartialCorr(wt, h, lag, n), 0x100_0000 * n)
    decreases n
  {
    if n > 0 {
      PartialCorrBound(wt, h, lag, n - 1);
      TimesIsProduct(wt[n - 1], h[120 + (n - 1) - lag]);
      ProductBound(wt[n - 1], h[120 + (n - 1) - lag], 512, 0x8000);
    }
  }

  /** The scaled cross-correlation at a lag. */
  function CrossCorr(wt: Segment, h: History, lag: nat): int
    requires 40 <= lag <= 120
  {
    PartialCorr(wt, h, lag, 40)
  }

  /** The search from lag `next` on, when `best` is the maximum so far and `nc` its lag. */
  function Search(wt: Segment, h: History, next: nat, nc: nat, best: int): (r: (nat, int))
    requires 40 <= next <= 121 && 40 <= nc <= 120
    ensures 40 <= r.0 <= 120
    decreases 121 - next, wt
  {
    if next == 121 then (nc, best)
    else
      var c := CrossCorr(wt, h, next);
      if c > best then Search(wt, h, next + 1, next, c) else Search(wt, h, next + 1, nc, best)
  }

  /** The lag and the maximum: lag 40 and zero when no correlation is positive. */
  function BestLag(wt: Segment, h: History): (r: (nat, int))
    ensures 40 <= r.0 <= 120
  {
    Search(wt, h, 40, 40, 0)
  }

  /** Correctness of the search: the lag is the least one with the largest correlation if that is
      positive, and 40 otherwise. */
  lemma BestLagIsFirstMaximum(wt: Segment, h: History)
    ensures var (nc, best) := BestLag(wt, h);
            (best > 0 ==> best == CrossCorr(wt, h, nc)) &&
            (best <= 0 ==> nc == 40 && best == 0) &&
            (forall lag :: 40 <= lag <= 120 ==> CrossCorr(wt, h, lag) <= best) &&
            (forall lag :: 40 <= lag < nc ==> CrossCorr(wt, h, lag) < best)
  {
    SearchIsFirstMaximum(wt, h, 40, 40, 0);
  }

  lemma {:induction false} SearchIsFirstMaximum(wt: Segment, h: History, next: nat, nc: nat, best: int)
    requires 40 <= next <= 121 && 40 <= nc <= 120 && best >= 0
    requires if best == 0 then nc == 40 else nc < next && best == CrossCorr(wt, h, nc)
    requires forall lag :: 40 <= lag < next ==> CrossCorr(wt, h, lag) <= best
    requires forall lag :: 40 <= lag < nc ==> CrossCorr(wt, h, lag) < best
    ensures var (nc', best') := Search(wt, h, next, nc, best);
            best' >= 0 && (if best' == 0 then nc' == 40 else best' == CrossCorr(wt, h, nc')) &&
            (forall lag :: 40 <= lag <= 120 ==> CrossCorr(wt, h, lag) <= best') &&
            (forall lag :: 40 <= lag < nc' ==> CrossCorr(wt, h, lag) < best')
    decreases 121 - next
  {
    if next < 121 {
      var c := CrossCorr(wt, h, next);
      if c > best {
        SearchIsFirstMaximum(wt, h, next + 1, next, c);
      } else {
        SearchIsFirstMaximum(wt, h, next + 1, nc, best);
      }
    }
  }

  lemma {:induction false} SearchBound(wt: Segment, h: History, next: nat, nc: nat, best: int)
    requires 40 <= next <= 121 && 40 <= nc <= 120 && 0 <= best <= 0x2800_0000
    requires forall k :: 0 <= k < 40 ==> Within(wt[k], 512)
    ensures 0 <= Search(wt, h, next, nc, best).1 <= 0x2800_0000
    decreases 121 - next
  {
    if next < 121 {
      var c := CrossCorr(wt, h, next);
      PartialCorrBound(wt, h, next, 40);
      if c > best {
        SearchBound(wt, h, next + 1, next, c);
      } else {
        SearchBound(wt, h, next + 1, nc, best);
      }
    }
  }

  // ---------------------------------------------------------------- 4.2.11 gain

  /** Sum of squares of dp[k - nc] >> 3 for k < n. */
  function PartialPower(h: History, nc: nat, n: nat): (p: int)
    requires 40 <= nc <= 120 && n <= 40
    ensures 0 <= p <= 0x100_0000 * n
    decreases n, h
  {
    if n == 0 then 0 else
      var t: int := h[120 + (n - 1) - nc] / 8;
      TimesIsProduct(t, t);
      ProductBound(t, t, 4096, 4096);
      PartialPower(h, nc, n - 1) + Times(t, t)
  }

  function Power(h: History, nc: nat): (p: longword)
    requires 40 <= nc <= 120
    ensures p >= 0
  {
    2 * PartialPower(h, nc, 40)
  }

  /** The rescaled maximum. */
  function Maximum(best: int, scal: nat): (lmax: longword)
    requires 0 <= best <= 0x2800_0000 && scal <= 6
    ensures lmax >= 0
  {
    ShrShrinks(2 * best, 6 - scal);
    Shr(2 * best, 6 - scal)
  }

  lemma {:induction false} ShrShrinks(x: int, n: nat)
    requires x >= 0
    ensures 0 <= Shr(x, n) <= x
    decreases n
  {
    if n > 0 {
      ShrShrinks(x / 2, n - 1);
    }
  }

  /** First decision level not below the ratio, from level `bc` on. */
  function GainFrom(r: word, s: word, bc: nat): (gain: nat)
    requires bc <= 3
    ensures bc <= gain <= 3
    decreases 3 - bc, r
  {
    if bc == 3 || r <= GsmMult(s, DLB[bc]) then bc else GainFrom(r, s, bc + 1)
  }

  /** The upper half of x shifted left by n. */
  function UpperHalf(x: longword, n: nat, top: longword): (a: word)
    requires 0 <= x <= top && Normalises(top, n)
  {
    ShlIsProduct(x, n);
    MulMono(x, top, Pow2(n));
    MulMono(0, x, Pow2(n));
    var shifted: longword := Shl(x, n);
    shifted / 0x1_0000
  }

  function Gain(lmax: longword, power: longword): (bc: nat)
    requires lmax >= 0 && power >= 0
    ensures bc <= 3
  {
    if lmax <= 0 then 0
    else if lmax >= power then 3
    else
      var temp := Norm(power);
      GainFrom(UpperHalf(lmax, temp, power), UpperHalf(power, temp, power), 0)
  }

  /** The gain code is the first whose decision level reaches the normalised ratio; 0 and 3 also
      code the absence of correlation and a ratio of one or more. */
  lemma {:induction false} GainIsFirstLevel(r: word, s: word, bc: nat)
    requires bc <= 3
    ensures var gain := GainFrom(r, s, bc);
            (gain < 3 ==> r <= GsmMult(s, DLB[gain])) &&
            (forall b :: bc <= b < gain ==> r > GsmMult(s, DLB[b]))
    decreases 3 - bc
  {
    if bc < 3 && r > GsmMult(s, DLB[bc]) {
      GainIsFirstLevel(r, s, bc + 1);
    }
  }

  // ---------------------------------------------------------------- 4.2.11 what lag and gain mean

  /** Sum of |dp[k - nc]| for k < n. */
  function Level(h: History, nc: nat, n: nat): (sum: nat)
    requires 40 <= nc <= 120 && n <= 40
    decreases n, h
  {
    if n == 0 then 0 else
      var x: int := h[120 + (n - 1) - nc];
      Level(h, nc, n - 1) + if x < 0 then -x else x
  }

  /** Sum of dp[k - nc]^2 for k < n. */
  function Energy(h: History, nc: nat, n: nat): (sum: int)
    requires 40 <= nc <= 120 && n <= 40
    decreases n, h
  {
    if n == 0 then 0 else
      var x: int := h[120 + (n - 1) - nc];
      Energy(h, nc, n - 1) + Times(x, x)
  }

  /** Scaling d down moves the correlation by less than one unit of every working sample. */
  lemma {:induction false} WorkCorrelates(d: Segment, wt: Segment, h: History, nc: nat, n: nat, p: int)
    requires 40 <= nc <= 120 && n <= 40 && p >= 1
    requires forall k :: 0 <= k < 40 ==> 0 <= d[k] - p * wt[k] < p
    ensures Within(PartialCorr(d, h, nc, n) - p * PartialCorr(wt, h, nc, n), (p - 1) * Level(h, nc, n))
    decreases n
  {
    if n > 0 {
      WorkCorrelates(d, wt, h, nc, n - 1, p);
      var a: int, w: int, x: int := d[n - 1], wt[n - 1], h[120 + (n - 1) - nc];
      TimesIsProduct(a, x);
      TimesIsProduct(w, x);
      hide Times;
      var m := if x < 0 then -x else x;
      Remainder(a, w, x, p, m);
      Factor(p, PartialCorr(wt, h, nc, n - 1), w * x);
      Factor(p - 1, Level(h, nc, n - 1), m);
    }
  }

  lemma Factor(p: int, a: int, b: int)
    ensures p * (a + b) == p * a + p * b
  {
  }

  lemma Remainder(a: int, w: int, x: int, p: int, m: nat)
    requires p >= 1 && 0 <= a - p * w < p && m == if x < 0 then -x else x
    ensures Within(a * x - p * (w * x), (p - 1) * m)
  {
    var r := a - p * w;
    Expanded(p, w, r, x);
    RemainderBound(r, p - 1, x, m);
  }

  lemma Expanded(p: int, w: int, r: int, x: int)
    ensures (p * w + r) * x == p * (w * x) + r * x
  {
    assert p * w * x == p * (w * x);
  }

  lemma RemainderBound(r: int, top: int, x: int, m: nat)
    requires 0 <= r <= top && m == if x < 0 then -x else x
    ensures Within(r * x, top * m)
  {
    MulMono(0, r, m);
    MulMono(r, top, m);
    if x < 0 {
      assert r * m == -(r * x);
    }
  }

  /** The power is that of dp, in the same unit of 1/32, up to the three bits that are dropped. */
  lemma {:induction false} PowerIsEnergy(h: History, nc: nat, n: nat)
    requires 40 <= nc <= 120 && n <= 40
    ensures Within(Energy(h, nc, n) - 64 * PartialPower(h, nc, n), 14 * Level(h, nc, n) + 49 * n)
    decreases n
  {
    if n > 0 {
      PowerIsEnergy(h, nc, n - 1);
      var x: int := h[120 + (n - 1) - nc];
      var q := x / 8;
      TimesIsProduct(x, x);
      TimesIsProduct(q, q);
      hide Times;
      DroppedBits(x, q);
    }
  }

  lemma DroppedBits(x: int, q: int)
    requires q == x / 8
    ensures Within(x * x - 64 * (q * q), 14 * (if x < 0 then -x else x) + 49)
  {
    var r := x - 8 * q;
    assert x * x - 64 * (q * q) == r * (2 * x - r);
    assert r == 0 || r == 1 || r == 2 || r == 3 || r == 4 || r == 5 || r == 6 || r == 7;
  }

  /** Numerator and denominator of the gain are one common scaling, by 1/32, of the correlation of d
      with dp at the lag and of the energy of dp there. */
  lemma CommonScale(d: Segment, h: History, nc: nat, best: int)
    requires 40 <= nc <= 120 && 0 <= best == CrossCorr(Work(d), h, nc) <= 0x2800_0000
    ensures Within(32 * Maximum(best, Scale(MaxAbs(d))) - CrossCorr(d, h, nc), 32 + 63 * Level(h, nc, 40))
    ensures Within(32 * Power(h, nc) - Energy(h, nc, 40), 14 * Level(h, nc, 40) + 1960)
  {
    hide Work, Scale, CrossCorr, Maximum, Level, PartialPower, Energy;
    PowerIsEnergy(h, nc, 40);
    MaximumScaled(d, h, nc, best);
  }

  lemma WorkRemainders(d: Segment)
    ensures var p := Pow2(Scale(MaxAbs(d)));
            1 <= p <= 64 && forall k :: 0 <= k < 40 ==> 0 <= d[k] - p * Work(d)[k] < p
  {
    var scal, wt := Scale(MaxAbs(d)), Work(d);
    Pow2Increases(scal, 6);
    Pow2Values();
    hide Pow2, Shr, Scale;
    forall k | 0 <= k < 40
      ensures 0 <= d[k] - Pow2(scal) * wt[k] < Pow2(scal)
    {
      ShiftRemainder(d[k], scal);
    }
  }

  lemma ShiftRemainder(x: int, n: nat)
    ensures 0 <= x - Pow2(n) * Shr(x, n) < Pow2(n)
  {
    hide Pow2, Shr;
    ShrIsDivision(x, n);
    DivBounds(x, Pow2(n), Shr(x, n));
    Factor(Pow2(n), Shr(x, n), 1);
  }

  lemma MaximumScaled(d: Segment, h: History, nc: nat, best: int)
    requires 40 <= nc <= 120 && 0 <= best == CrossCorr(Work(d), h, nc) <= 0x2800_0000
    ensures Within(32 * Maximum(best, Scale(MaxAbs(d))) - CrossCorr(d, h, nc), 32 + 63 * Level(h, nc, 40))
  {
    hide Work, Scale, Level, PartialCorr, Shr;
    var scal, l := Scale(MaxAbs(d)), Level(h, nc, 40);
    var p, q, lmax := Pow2(scal), Pow2(6 - scal), Maximum(best, scal);
    WorkRemainders(d);
    WorkCorrelates(d, Work(d), h, nc, 40, p);
    ShrIsDivision(2 * best, 6 - scal);
    DivBounds(2 * best, q, lmax);
    Pow2Add(scal, 6 - scal);
    Pow2Values();
    hide Pow2, Maximum;
    ScaledMaximum(best, lmax, p, q);
    MulMono(p - 1, 63, l);
  }

  lemma ScaledMaximum(best: int, lmax: int, p: int, q: int)
    requires p > 0 && p * q == 64 && q * lmax <= 2 * best < q * (lmax + 1)
    ensures Within(32 * lmax - p * best, 32)
  {
    MulMono(q * lmax, 2 * best, p);
    MulMono(2 * best, q * (lmax + 1), p);
    assert q * lmax * p == p * q * lmax && q * (lmax + 1) * p == p * q * (lmax + 1);
    assert 2 * best * p == 2 * (p * best);
  }

  lemma UpperHalfBounds(x: longword, n: nat, top: longword)
    requires 0 <= x <= top && Normalises(top, n)
    ensures var y := x * Pow2(n); 0x1_0000 * UpperHalf(x, n, top) <= y < 0x1_0000 * UpperHalf(x, n, top) + 0x1_0000
  {
    ShlIsProduct(x, n);
  }

  /** The gain code is decided by the ratio of the two, to one part in 2^14: it is the first whose
      decision level, in units of 2^-15, reaches the ratio. */
  lemma GainByRatio(lmax: longword, power: longword)
    requires 0 < lmax < power
    ensures var (n, gain) := (Norm(power), Gain(lmax, power));
            var (l, p) := (lmax * Pow2(n), power * Pow2(n));
            p >= 0x4000_0000 &&
            (gain < 3 ==> 0x8000 * (l - 0x1_0000) < DLB[gain] * p) &&
            (forall b :: 0 <= b < gain ==> 0x8000 * l > DLB[b] * (p - 0x1_0000))
  {
    var n, gain := Norm(power), Gain(lmax, power);
    var r, s := UpperHalf(lmax, n, power), UpperHalf(power, n, power);
    UpperHalfBounds(lmax, n, power);
    UpperHalfBounds(power, n, power);
    var l, p := lmax * Pow2(n), power * Pow2(n);
    GainIsFirstLevel(r, s, 0);
    hide Norm, UpperHalf, GainFrom, GsmMult, Pow2;
    if gain < 3 {
      LevelCompared(r, s, gain, l, p);
    }
    forall b | 0 <= b < gain
      ensures 0x8000 * l > DLB[b] * (p - 0x1_0000)
    {
      LevelCompared(r, s, b, l, p);
    }
  }

  lemma LevelCompared(r: word, s: word, b: nat, l: int, p: int)
    requires b <= 3 && 0x1_0000 * r <= l < 0x1_0000 * r + 0x1_0000 && 0x1_0000 * s <= p < 0x1_0000 * s + 0x1_0000
    ensures r <= GsmMult(s, DLB[b]) ==> 0x8000 * (l - 0x1_0000) < DLB[b] * p
    ensures r > GsmMult(s, DLB[b]) ==> 0x8000 * l > DLB[b] * (p - 0x1_0000)
  {
    MultValue(s, DLB[b]);
    assert b == 0 || b == 1 || b == 2 || b == 3;
  }

  datatype LtpParams = LtpParams(nc: nat, bc: nat) {
    predicate Valid() {
      40 <= nc <= 120 && bc <= 3
    }
  }

  /** Calculation_of_the_LTP_parameters. */
  function Parameters(d: Segment, h: History): (p: LtpParams)
    ensures p.Valid()
  {
    var wt := Work(d);
    var (nc, best) := BestLag(wt, h);
    SearchBound(wt, h, 40, 40, 0);
    LtpParams(nc, Gain(Maximum(best, Scale(MaxAbs(d))), Power(h, nc)))
  }

  // ---------------------------------------------------------------- 4.2.12, 4.3.2 filtering

  /** The estimate dpp from the history: with lags of at least 40 it only reads samples before the
      current sub-segment. */
  function Estimate(h: History, p: LtpParams): (dpp: Segment)
    requires p.Valid()
  {
    seq(40, k requires 0 <= k < 40 => EstimateAt(h, p, k))
  }

  function EstimateAt(h: History, p: LtpParams, k: nat): (dpp: word)
    requires p.Valid() && k < 40
  {
    MultR(QLB[p.bc], h[120 + k - p.nc])
  }

  function Residual(d: Segment, dpp: Segment): (e: Segment) {
    seq(40, k requires 0 <= k < 40 => Sub(d[k], dpp[k]))
  }

  /** Sample-wise saturating sum. */
  function Sum(ep: Segment, dpp: Segment): (drp: Segment) {
    seq(40, k requires 0 <= k < 40 => Add(ep[k], dpp[k]))
  }

  /** The reconstructed short-term residual of a sub-segment. */
  function Reconstruct(h: History, p: LtpParams, ep: Segment): (drp: Segment)
    requires p.Valid()
  {
    Sum(ep, Estimate(h, p))
  }

  /** The decoder's synthesis filter undoes the encoder's analysis filter, sample by sample, exactly
      where the subtraction did not saturate. */
  lemma ResidualUndone(h: History, p: LtpParams, d: Segment, k: nat)
    requires p.Valid() && k < 40
    ensures Reconstruct(h, p, Residual(d, Estimate(h, p)))[k] == d[k]
            <==> MIN_WORD <= d[k] - Estimate(h, p)[k] <= MAX_WORD
  {
    hide MultR;
  }

  /** And with a coded residual `ep` the sub-segment is missed by no more than the residual is. */
  lemma ResidualErrorKept(h: History, p: LtpParams, d: Segment, ep: Segment, k: nat)
    requires p.Valid() && k < 40 && MIN_WORD <= d[k] - Estimate(h, p)[k] <= MAX_WORD
    ensures Distance(Reconstruct(h, p, ep)[k], d[k]) <= Distance(ep[k], Residual(d, Estimate(h, p))[k])
  {
    hide MultR;
  }

  function Inner(d: Segment, x: Segment, n: nat): int
    requires n <= 40
    decreases n, d
  {
    if n == 0 then 0 else Inner(d, x, n - 1) + Times(d[n - 1], x[n - 1])
  }

  function Absolute(d: Segment, n: nat): (sum: nat)
    requires n <= 40
    decreases n, d
  {
    if n == 0 then 0 else
      var x: int := d[n - 1];
      Absolute(d, n - 1) + if x < 0 then -x else x
  }

  /** The estimate is taken from where the search has correlated: its correlation with d is the
      gain times the correlation at the lag, up to half a unit of every estimated sample. */
  lemma {:induction false} EstimateCorrelates(h: History, p: LtpParams, d: Segment, n: nat)
    requires p.Valid() && n <= 40
    ensures Within(0x8000 * Inner(d, Estimate(h, p), n) - QLB[p.bc] * PartialCorr(d, h, p.nc, n), 0x4000 * Absolute(d, n))
    decreases n
  {
    if n > 0 {
      EstimateCorrelates(h, p, d, n - 1);
      var a: int, g: int, x: int, y: int := d[n - 1], QLB[p.bc], h[120 + (n - 1) - p.nc], Estimate(h, p)[n - 1];
      MultRValue(g, x);
      TimesIsProduct(a, x);
      TimesIsProduct(a, y);
      hide Times, MultR;
      assert -0x4000 <= 0x8000 * y - g * x <= 0x4000;
      RoundedTerm(a, g, x, y);
      var c, i := PartialCorr(d, h, p.nc, n - 1), Inner(d, Estimate(h, p), n - 1);
      assert g * (c + a * x) == g * c + g * (a * x);
    }
  }

  lemma RoundedTerm(a: int, g: int, x: int, y: int)
    requires -0x4000 <= 0x8000 * y - g * x <= 0x4000
    ensures Within(0x8000 * (a * y) - g * (a * x), 0x4000 * (if a < 0 then -a else a))
  {
    var e := 0x8000 * y - g * x;
    assert 0x8000 * (a * y) - g * (a * x) == a * e;
    if a >= 0 {
      MulMono(-0x4000, e, a);
      MulMono(e, 0x4000, a);
    } else {
      MulMono(-0x4000, e, -a);
      MulMono(e, 0x4000, -a);
      assert e * -a == -(a * e);
    }
  }

  /** The history moves on by one sub-segment. */
  function Advance(h: History, drp: Segment): (h': History) {
    h[40..] + drp
  }

  /** The lag the decoder uses: an invalid one is replaced by the last valid one. */
  function UsedLag(ncr: int, nrp: nat): (nr: nat)
    requires 40 <= nrp <= 120
    ensures 40 <= nr <= 120
    ensures 40 <= ncr <= 120 ==> nr == ncr
  {
    if ncr < 40 || ncr > 120 then nrp else ncr
  }

  // ---------------------------------------------------------------- the procedures, on arrays

  /** The history before position `base` of dp0. */
  ghost function Before(dp0: array<word>, base: nat): (h: History)
    requires 120 <= base <= dp0.Length
    reads dp0
  {
    dp0[base - 120..base]
  }

  /** STEP(0); ... STEP(39): no partial sum leaves 32 bits. */
  method Correlate(wt: array<word>, dp0: array<word>, base: nat, lag: nat) returns (lResult: longword)
    requires wt.Length == 40 && 120 <= base <= dp0.Length && 40 <= lag <= 120
    requires forall k :: 0 <= k < 40 ==> Within(wt[k], 512)
    ensures lResult == CrossCorr(wt[..], Before(dp0, base), lag)
  {
    ghost var w, h: History := wt[..], Before(dp0, base);
    lResult := 0;
    for k := 0 to 40
      invariant lResult == PartialCorr(w, h, lag, k)
    {
      PartialCorrBound(w, h, lag, k + 1);
      TimesIsProduct(w[k], h[120 + k - lag]);
      var a: int, b: int := wt[k], dp0[base + k - lag];
      lResult := lResult + a * b;
    }
  }

  /** Sub-segment of d from `start`, read by the LTP calculation. */
  ghost function Slice(d: array<word>, start: nat): (s: Segment)
    requires start + 40 <= d.Length
    reads d
  {
    d[start..start + 40]
  }

  lemma NoPeak()
    ensures MaxAbs([]) == 0
  {
  }

  lemma PeakStep(s: seq<word>, k: nat)
    requires k < |s|
    ensures var m := MaxAbs(s[..k]); MaxAbs(s[..k + 1]) == if Abs(s[k]) > m then Abs(s[k]) else m
  {
    assert s[..k + 1][..k] == s[..k];
  }

  /** The search for the peak and the shift that it calls for. */
  method FindScale(d: array<word>, start: nat) returns (scal: nat)
    requires start + 40 <= d.Length
    ensures scal == Scale(MaxAbs(Slice(d, start)))
  {
    hide MaxAbs;
    ghost var s := Slice(d, start);
    NoPeak();
    var dmax: int := 0;
    for k := 0 to 40
      invariant dmax == MaxAbs(s[..k])
    {
      assert d[start + k] == s[k];
      PeakStep(s, k);
      var temp := Abs(d[start + k]);
      if temp > dmax {
        dmax := temp;
      }
    }
    assert s[..40] == s;
    var temp := 0;
    if dmax != 0 {
      var shifted: longword := dmax * 0x1_0000;
      temp := Norm(shifted);
    }
    scal := if temp > 6 then 0 else 6 - temp;
  }


  method ScaleSegment(d: array<word>, start: nat) returns (wt: array<word>, scal: nat)
    requires start + 40 <= d.Length
    ensures fresh(wt) && wt.Length == 40 && wt[..] == Work(Slice(d, start))
    ensures scal == Scale(MaxAbs(Slice(d, start)))
  {
    ghost var s := Slice(d, start);
    scal := FindScale(d, start);
    hide Scale, MaxAbs;
    wt := new word[40];
    WorkBound(s);
    for k := 0 to 40
      invariant forall i :: 0 <= i < k ==> wt[i] == Work(s)[i]
    {
      assert d[start + k] == s[k];
      wt[k] := Shr(d[start + k], scal);
    }
  }

  method SearchLag(wt: array<word>, dp0: array<word>, base: nat) returns (nc: nat, lMax: longword)
    requires wt.Length == 40 && 120 <= base <= dp0.Length
    requires forall k :: 0 <= k < 40 ==> Within(wt[k], 512)
    ensures (nc, lMax) == BestLag(wt[..], Before(dp0, base))
  {
    lMax := 0;
    nc := 40;
    for lag := 40 to 121
      invariant 40 <= nc <= 120
      invariant Search(wt[..], Before(dp0, base), lag, nc, lMax) == BestLag(wt[..], Before(dp0, base))
    {
      var lResult := Correlate(wt, dp0, base, lag);
      if lResult > lMax {
        nc := lag;
        lMax := lResult;
      }
    }
  }

  method ComputePower(dp0: array<word>, base: nat, nc: nat) returns (lPower: longword)
    requires 120 <= base <= dp0.Length && 40 <= nc <= 120
    ensures lPower == Power(Before(dp0, base), nc)
  {
    ghost var h := Before(dp0, base);
    lPower := 0;
    for k := 0 to 40
      invariant lPower == PartialPower(h, nc, k)
    {
      assert dp0[base + k - nc] == h[120 + k - nc];
      var lTemp: int := dp0[base + k - nc] / 8;
      TimesIsProduct(lTemp, lTemp);
      ProductBound(lTemp, lTemp, 4096, 4096);
      lPower := lPower + lTemp * lTemp;
    }
    lPower := lPower * 2;
  }

  /** Calculation_of_the_LTP_parameters, reading dp[-120..-1] in place. */
  method Calculate(d: array<word>, start: nat, dp0: array<word>, base: nat) returns (bc: nat, nc: nat)
    requires start + 40 <= d.Length && 120 <= base <= dp0.Length
    ensures LtpParams(nc, bc) == Parameters(Slice(d, start), Before(dp0, base))
  {
    hide Work, Scale, GainFrom, MaxAbs, Norm, Power, Search;
    var wt, scal := ScaleSegment(d, start);
    var lMax;
    nc, lMax := SearchLag(wt, dp0, base);
    SearchBound(wt[..], Before(dp0, base), 40, 40, 0);
    lMax := lMax * 2;
    ShrShrinks(lMax, 6 - scal);
    lMax := Shr(lMax, 6 - scal);
    var lPower := ComputePower(dp0, base, nc);
    if lMax <= 0 {
      return 0, nc;
    }
    if lMax >= lPower {
      return 3, nc;
    }
    var temp := Norm(lPower);
    var R := UpperHalf(lMax, temp, lPower);
    var S := UpperHalf(lPower, temp, lPower);
    bc := FindGain(R, S);
  }

  /** The search in the table of decision levels. */
  method FindGain(R: word, S: word) returns (bc: nat)
    ensures bc == GainFrom(R, S, 0)
  {
    bc := 0;
    while bc <= 2
      invariant bc <= 3 && GainFrom(R, S, 0) == GainFrom(R, S, bc)
      decreases 3 - bc
    {
      if R <= GsmMult(S, DLB[bc]) {
        break;
      }
      bc := bc + 1;
    }
  }

  /** Long_term_analysis_filtering.  dpp is the same memory as the current sub-segment of dp: the
      loop writes dp0[base..base+40] while it reads dp[k - Nc].  The gains are written out for the
      encoder; they are those of the decoder's table. */
  method AnalysisFiltering(bc: nat, nc: nat, dp0: array<word>, base: nat, d: array<word>, start: nat,
                           e: array<word>)
    requires LtpParams(nc, bc).Valid() && 120 <= base && base + 40 <= dp0.Length
    requires start + 40 <= d.Length && e.Length == 50 && e != dp0 && e != d && d != dp0
    modifies dp0, e
    ensures dp0[base..base + 40] == old(Estimate(Before(dp0, base), LtpParams(nc, bc)))
    ensures forall i :: 0 <= i < dp0.Length && !(base <= i < base + 40) ==> dp0[i] == old(dp0[i])
    ensures e[5..45] == old(Residual(Slice(d, start), Estimate(Before(dp0, base), LtpParams(nc, bc))))
    ensures forall i :: 0 <= i < 50 && !(5 <= i < 45) ==> e[i] == old(e[i])
  {
    ghost var dpp := Estimate(Before(dp0, base), LtpParams(nc, bc));
    var BP: word;
    match bc {
      case 0 => BP := 3277;
      case 1 => BP := 11469;
      case 2 => BP := 21299;
      case _ => BP := 32767;
    }
    assert BP == QLB[bc];
    for k := 0 to 40
      invariant forall i :: 0 <= i < k ==> dp0[base + i] == dpp[i]
      invariant forall i :: 0 <= i < dp0.Length && !(base <= i < base + k) ==> dp0[i] == old(dp0[i])
      invariant forall i :: 0 <= i < k ==> e[5 + i] == Sub(d[start + i], dpp[i])
      invariant forall i :: 0 <= i < 50 && !(5 <= i < 5 + k) ==> e[i] == old(e[i])
    {
      dp0[base + k] := MultR(BP, dp0[base + k - nc]);
      e[5 + k] := Sub(d[start + k], dp0[base + k]);
    }
  }

  /** Gsm_Long_Term_Synthesis_Filtering: the sub-segment is written behind the history, which is
      then moved down by 40. */
  method SynthesisFiltering(nrp: nat, ncr: int, bcr: nat, erp: array<word>, dp0: array<word>) returns (nr: nat)
    requires 40 <= nrp <= 120 && bcr <= 3 && erp.Length == 40 && dp0.Length == 280 && erp != dp0
    modifies dp0
    ensures nr == UsedLag(ncr, nrp)
    ensures dp0[120..160] == old(Reconstruct(Before(dp0, 120), LtpParams(nr, bcr), erp[..]))
    ensures dp0[..120] == old(Advance(Before(dp0, 120), Reconstruct(Before(dp0, 120), LtpParams(nr, bcr), erp[..])))
  {
    nr := if ncr < 40 || ncr > 120 then nrp else ncr;
    ghost var h, drp: Segment := Before(dp0, 120), Reconstruct(Before(dp0, 120), LtpParams(nr, bcr), erp[..]);
    var brp := QLB[bcr];
    for k := 0 to 40
      invariant forall i :: 0 <= i < k ==> dp0[120 + i] == drp[i]
      invariant forall i :: 0 <= i < 120 ==> dp0[i] == h[i]
    {
      var drpp := MultR(brp, dp0[120 + k - nr]);
      dp0[120 + k] := Add(erp[k], drpp);
    }
    for k := 0 to 120
      invariant forall i :: 0 <= i < k ==> dp0[i] == if i < 80 then h[40 + i] else drp[i - 80]
      invariant forall i :: k <= i < 120 ==> dp0[i] == h[i]
      invariant forall i :: 0 <= i < 40 ==> dp0[120 + i] == drp[i]
    {
      dp0[k] := dp0[k + 40];
    }
  }
}
