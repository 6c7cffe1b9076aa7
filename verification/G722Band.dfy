/** One sub-band of the G.722 codec: the logarithmic scale factor and the adaptive predictor with
  two poles and six zeros (block4 of g722/g722_encode.c and g722/g722_decode.c, and the blocks 2
  and 3 of the two main loops).

  First the adaptation as functions on the values of a band, with its invariants, and then the
  procedures on the fields of the C structure. */
module G722Band {
  import opened Words

  /** An int of the C program. */
  type int32 = longword

  // ---------------------------------------------------------------- scale factor

  const ILB: seq<int> := [
    2048, 2093, 2139, 2186, 2233, 2282, 2332, 2383, 2435, 2489, 2543, 2599, 2656, 2714, 2774, 2834,
    2896, 2960, 3025, 3091, 3158, 3228, 3298, 3371, 3444, 3520, 3597, 3676, 3756, 3838, 3922, 4008]

  /** What differs between the bands: the exponent of the smallest scale factor and the largest
      logarithm. */
  datatype Kind = Low | High {
    const SHIFT: int := if Low? then 8 else 10
    const LIMIT: int := if Low? then 18432 else 22528
    const LEAST_DET: int := if Low? then 32 else 8
  }

  lemma IlbRange(i: nat)
    requires i < 32
    ensures 2048 <= ILB[i] < 4096
  {
  }

  /** The fraction of the logarithm, five bits, through the table. */
  function Mantissa(nb: nat): (m: nat)
    ensures 2048 <= m < 4096
  {
    IlbRange(nb / 64 % 32);
    ILB[nb / 64 % 32]
  }

  lemma OctaveIndex(nb: nat)
    ensures (nb + 2048) / 64 % 32 == nb / 64 % 32 && (nb + 2048) / 2048 == nb / 2048 + 1
    ensures nb % 2048 == 0 ==> nb / 64 % 32 == 0
  {
    assert (nb + 2048) / 64 == nb / 64 + 32;
  }

  /** SCALEL and SCALEH: the scale factor that belongs to a logarithm. */
  function Scale(k: Kind, nb: nat): (det: int)
    requires nb <= k.LIMIT
    ensures k.LEAST_DET <= det <= 16384
  {
    var mantissa, shift := Mantissa(nb), k.SHIFT - nb / 2048;
    OctaveIndex(nb);
    assert nb % 2048 == 0 ==> Mantissa(nb) == 2048;
    hide Mantissa;
    ScaleRange(k, nb, mantissa);
    4 * if shift < 0 then Shl(mantissa, -shift) else Shr(mantissa, shift)
  }

  lemma ScaleRange(k: Kind, nb: nat, mantissa: nat)
    requires nb <= k.LIMIT && 2048 <= mantissa < 4096 && (nb / 2048 > k.SHIFT ==> mantissa == 2048)
    ensures var shift := k.SHIFT - nb / 2048;
            k.LEAST_DET <= 4 * (if shift < 0 then Shl(mantissa, -shift) else Shr(mantissa, shift)) <= 16384
  {
    Pow2Values();
    var shift := k.SHIFT - nb / 2048;
    if shift < 0 {
      assert shift == -1 && Shl(mantissa, 1) == 2 * mantissa by {
        ShlIsProduct(mantissa, 1);
      }
    } else {
      ShrIsDivision(mantissa, shift);
      assert shift == 0 || shift == 1 || shift == 2 || shift == 3 || shift == 4 || shift == 5 || shift == 6 ||
             shift == 7 || shift == 8 || shift == 9 || shift == 10;
    }
  }

  /** What the logarithm means: an octave is 2048, up to the bit that the shift drops. */
  lemma OctaveDoubles(k: Kind, nb: nat)
    requires nb + 2048 <= k.LIMIT
    ensures 2 * Scale(k, nb) <= Scale(k, nb + 2048) <= 2 * Scale(k, nb) + 4
  {
    OctaveIndex(nb);
    assert Mantissa(nb + 2048) == Mantissa(nb);
    hide Shl, Shr, Mantissa;
    OneShiftLess(Mantissa(nb), k.SHIFT - nb / 2048);
  }

  lemma OneShiftLess(m: nat, shift: int)
    requires -1 <= shift - 1
    ensures var more := if shift - 1 < 0 then Shl(m, 1 - shift) else Shr(m, shift - 1);
            2 * Shr(m, shift) <= more <= 2 * Shr(m, shift) + 1
  {
    if shift == 0 {
      ShlIsProduct(m, 1);
      Pow2Values();
    } else {
      ShrIsDivision(m, shift);
      ShrIsDivision(m, shift - 1);
      HalfAgain(m, Pow2(shift - 1));
    }
  }

  lemma HalfAgain(m: nat, p: nat)
    requires p > 0
    ensures m / (2 * p) == m / p / 2
  {
    var q, r := m / p, m % p;
    assert m == p * q + r;
    assert m == (2 * p) * (q / 2) + (p * (q % 2) + r);
    assert p * (q % 2) + r < 2 * p;
    DivUnique(m, 2 * p, q / 2, p * (q % 2) + r);
  }

  /** LOGSCL and LOGSCH: leakage, step and limits of the logarithm. */
  function LogScale(k: Kind, nb: nat, step: int): (n: nat)
    ensures n <= k.LIMIT
  {
    var n := nb * 127 / 128 + step;
    if n < 0 then 0 else if n > k.LIMIT then k.LIMIT else n
  }

  // ---------------------------------------------------------------- predictor

  /** The sign bit of a 16-bit quantity in an int: x >> 15. */
  function Sign(x: int): int {
    x / 0x8000
  }

  /** x * y >> 15. */
  function Scaled(x: word, y: word): (r: int)
    ensures Within(r, 0x8000)
  {
    WordProduct(x, y);
    TimesIsProduct(x, y);
    var product: int32 := Times(x, y);
    product / 0x8000
  }

  lemma ScaledValue(x: word, y: word)
    ensures Scaled(x, y) == x * y / 0x8000
  {
    TimesIsProduct(x, y);
  }

  function Clamp(x: int, limit: int): (r: int)
    requires limit >= 0
    ensures Within(r, limit) && (Within(x, limit) ==> r == x)
  {
    if x > limit then limit else if x < -limit then -limit else x
  }

  /** A scale factor. */
  type Det = det: int | 0 <= det <= 16384

  /** The values of a band that last from one sample to the next; d and b are d[1..7] and b[1..7] of
      the C structure. */
  datatype Band = Band(s: word, sp: word, sz: word, r1: word, r2: word, a1: word, a2: word, p1: word, p2: word,
                       d: seq<word>, b: seq<word>, nb: nat, det: Det) {
    /** The pole coefficients, in units of 2^-14, lie inside the stability triangle. */
    predicate Stable() {
      Within(a2, 12288) && Within(a1, 15360 - a2)
    }

    predicate Shaped() {
      |d| == 6 && |b| == 6
    }

    /** The invariant. */
    predicate Valid(k: Kind) {
      Stable() && Shaped() && nb <= k.LIMIT && det == Scale(k, nb)
    }
  }

  function UpPol2(p0: word, p1: word, p2: word, a1: word, a2: word): (r: word)
    ensures Within(r, 12288)
  {
    var wd1: int := Sat(4 * a1);
    var wd2: int := if Sign(p0) == Sign(p1) then -wd1 else wd1;
    var wd2' := if wd2 > 32767 then 32767 else wd2;
    Clamp(wd2' / 128 + (if Sign(p0) == Sign(p2) then 128 else -128) + Scaled(a2, 32512), 12288)
  }

  function UpPol1(p0: word, p1: word, a1: word, a2: word): (r: word)
    requires Within(a2, 12288)
    ensures Within(r, 15360 - a2)
  {
    Clamp(Sat((if Sign(p0) == Sign(p1) then 192 else -192) + Scaled(a1, 32640)), 15360 - a2)
  }

  /** One zero coefficient; the saturation of the C code never takes effect here. */
  function UpZero(d0: word, di: word, bi: word): (r: word)
    ensures Scaled(bi, 32640) + (if d0 == 0 then 0 else if Sign(di) == Sign(d0) then 128 else -128) == r
  {
    ScaledValue(bi, 32640);
    var wd1 := if d0 == 0 then 0 else 128;
    Sat((if Sign(di) == Sign(d0) then wd1 else -wd1) + Scaled(bi, 32640))
  }

  function UpZeros(d0: word, d: seq<word>, b: seq<word>): (r: seq<word>)
    requires |d| == |b|
    ensures |r| == |b| && forall i :: 0 <= i < |b| ==> r[i] == UpZero(d0, d[i], b[i])
  {
    seq(|b|, i requires 0 <= i < |b| => UpZero(d0, d[i], b[i]))
  }

  function FiltEp(r1: word, r2: word, a1: word, a2: word): word {
    Sat(Scaled(a1, Sat(2 * r1)) + Scaled(a2, Sat(2 * r2)))
  }

  /** The sum of the zero section, last tap first. */
  function Taps(d: seq<word>, b: seq<word>): (sum: int)
    requires |d| == |b|
    ensures Within(sum, 0x8000 * |d|)
    decreases |d|
  {
    if d == [] then 0 else
      var d0: int := d[0];
      Taps(d[1..], b[1..]) + Scaled(b[0], Sat(2 * d0))
  }

  /** block4, as a function of the band and the quantised difference. */
  function Predict(k: Band, d: word): (r: Band)
    requires k.Shaped()
    ensures r.Shaped() && r.Stable() && r.nb == k.nb && r.det == k.det
  {
    var r0, p0 := Sat(k.s + d), Sat(k.sz + d);
    var a2 := UpPol2(p0, k.p1, k.p2, k.a1, k.a2);
    var a1 := UpPol1(p0, k.p1, k.a1, a2);
    var d', b' := [d] + k.d[..5], UpZeros(d, k.d, k.b);
    var sp, sz := FiltEp(r0, k.r1, a1, a2), Sat(Taps(d', b'));
    Band(Sat(sp + sz), sp, sz, r0, k.r1, a1, a2, p0, k.p1, d', b', k.nb, k.det)
  }

  // ---------------------------------------------------------------- adaptation from a code

  const WL: seq<int> := [-60, -30, 58, 172, 334, 538, 1198, 3042]
  const RL42: seq<int> := [0, 7, 6, 5, 4, 3, 2, 1, 7, 6, 5, 4, 3, 2, 1, 0]
  const QM4: seq<int> := [0, -20456, -12896, -8968, -6288, -4240, -2584, -1200,
                          20456, 12896, 8968, 6288, 4240, 2584, 1200, 0]
  const WH: seq<int> := [0, -214, 798]
  const RH2: seq<int> := [2, 1, 2, 1]
  const QM2: seq<int> := [-7408, -1616, 7408, 1616]

  /** The level and the step of the logarithm that belong to the four low-band bits (or the two
      high-band bits) from which both sides adapt. */
  function Level(k: Kind, code: nat): (q: word)
    requires code < (if k.Low? then 16 else 4)
    ensures Within(q, 20456)
  {
    if k.Low? then QM4[code] else QM2[code]
  }

  function Step(k: Kind, code: nat): (w: int)
    requires code < (if k.Low? then 16 else 4)
    ensures -214 <= w <= 3042
  {
    if k.Low? then WL[RL42[code]] else WH[RH2[code]]
  }

  /** One adaptation: inverse quantiser, scale factor, predictor. */
  function Adapt(k: Kind, band: Band, code: nat): (r: Band)
    requires band.Valid(k) && code < (if k.Low? then 16 else 4)
    ensures r.Valid(k)
  {
    var d := Scaled(band.det, Level(k, code));
    var nb := LogScale(k, band.nb, Step(k, code));
    DifferenceRange(band.det, Level(k, code));
    Predict(band.(nb := nb, det := Scale(k, nb)), d)
  }

  /** The difference signal needs fifteen bits. */
  lemma DifferenceRange(det: Det, q: word)
    requires Within(q, 24808)
    ensures Within(Scaled(det, q), 12404)
  {
    ScaledValue(det, q);
    ProductBound(det, q, 16384, 24808);
  }

  function NewBand(k: Kind): (b: Band)
    ensures b.Valid(k)
  {
    ScaleAtZero(k);
    Band(0, 0, 0, 0, 0, 0, 0, 0, 0, [0, 0, 0, 0, 0, 0], [0, 0, 0, 0, 0, 0], 0, k.LEAST_DET)
  }

  type LowBand = b: Band | b.Valid(Low) witness NewBand(Low)

  type HighBand = b: Band | b.Valid(High) witness NewBand(High)

  lemma ScaleAtZero(k: Kind)
    ensures Scale(k, 0) == k.LEAST_DET
  {
    Pow2Values();
    var nb: nat := 0;
    OctaveIndex(nb);
    ShrIsDivision(Mantissa(nb), k.SHIFT);
    hide Shr, Mantissa;
  }

  // ---------------------------------------------------------------- what the adaptation computes

  /** sgn of the recommendation: the sign bit decides, so that zero counts as positive. */
  function Sgn(x: int): int {
    if x < 0 then -1 else 1
  }

  /** The second pole coefficient leaks by 1/128, and moves by 1/128 towards the agreement of p(n) with
      p(n-2), less 1/32 of the first one in the direction of the agreement of p(n) with p(n-1). */
  lemma Pole2Law(p0: word, p1: word, p2: word, a1: word, a2: word)
    requires Within(a1, 8191) && Within(UpPol2(p0, p1, p2, a1, a2), 12287)
    ensures var drift := 127 * a2 - Sgn(p0) * Sgn(p1) * 4 * a1 + Sgn(p0) * Sgn(p2) * 0x4000;
            drift - 256 < 128 * UpPol2(p0, p1, p2, a1, a2) <= drift
  {
    ScaledValue(a2, 32512);
    hide Scaled;
    var leak := Scaled(a2, 32512);
    assert 127 * a2 - 128 < 128 * leak <= 127 * a2;
    assert Sat(4 * a1) == 4 * a1;
  }

  /** The first pole coefficient leaks by 1/256, and moves by 3/256 towards the agreement of p(n) with
      p(n-1). */
  lemma Pole1Law(p0: word, p1: word, a1: word, a2: word)
    requires Within(a2, 12288) && Within(UpPol1(p0, p1, a1, a2), 15359 - a2)
    ensures var drift := 255 * a1 + Sgn(p0) * Sgn(p1) * 192 * 256;
            drift - 256 < 256 * UpPol1(p0, p1, a1, a2) <= drift
  {
    ScaledValue(a1, 32640);
  }

  /** A zero coefficient leaks by 1/256, and moves by 1/128 towards the agreement of the difference
      with the one it multiplies; a zero difference moves nothing. */
  lemma ZeroLaw(d0: word, di: word, bi: word)
    ensures var drift := 255 * bi + (if d0 == 0 then 0 else Sgn(d0) * Sgn(di) * 128 * 256);
            drift - 256 < 256 * UpZero(d0, di, bi) <= drift
  {
    ScaledValue(bi, 32640);
  }

  /** The logarithm of the scale factor leaks by 1/128 and takes the step of the code. */
  lemma LogScaleLaw(k: Kind, nb: nat, step: int)
    requires 0 < LogScale(k, nb, step) < k.LIMIT
    ensures var drift := 127 * nb + 128 * step; drift - 128 < 128 * LogScale(k, nb, step) <= drift
  {
  }

  lemma HalvedProduct(a: word, r: word)
    requires Within(r, 16383)
    ensures a * r - 16384 < 16384 * Scaled(a, Sat(2 * r)) <= a * r
  {
    var x: int, y: int := a, r;
    var t: word := 2 * r;
    ScaledValue(a, t);
    assert x * (2 * y) == 2 * (x * y);
  }

  /** The pole section is the recursion sp = (a1 r1 + a2 r2) / 2^14, up to two units, wherever the sum
      is inside the 16-bit range. */
  lemma PoleSection(r1: word, r2: word, a1: word, a2: word)
    requires Within(r1, 16383) && Within(r2, 16383)
    requires var y := a1 * r1 + a2 * r2; -32766 * 16384 <= y <= 32767 * 16384
    ensures var y := a1 * r1 + a2 * r2; y - 32768 < 16384 * FiltEp(r1, r2, a1, a2) <= y
  {
    HalvedProduct(a1, r1);
    HalvedProduct(a2, r2);
    hide Scaled;
  }

  function Products(d: seq<word>, b: seq<word>): (sum: int)
    requires |d| == |b|
    decreases |d|
  {
    if d == [] then 0 else Products(d[1..], b[1..]) + Times(b[0], d[0])
  }

  /** The zero section is the sum of b[i] d[i] / 2^14, up to one unit a tap. */
  lemma {:induction false} ZeroSection(d: seq<word>, b: seq<word>)
    requires |d| == |b| && forall i :: 0 <= i < |d| ==> Within(d[i], 16383)
    ensures Products(d, b) - 16384 * |d| <= 16384 * Taps(d, b) <= Products(d, b)
    decreases |d|
  {
    if d != [] {
      ZeroSection(d[1..], b[1..]);
      TimesIsProduct(b[0], d[0]);
      hide Times, Scaled;
      HalvedProduct(b[0], d[0]);
    }
  }

  /** What the new state of a band is: the difference d enters the delay line in front; r[0] = s + d
      is the reconstructed signal and p[0] = sz + d the partly reconstructed one, which is r[0] less
      the prediction from the poles; the prediction of the next sample is made of sp and sz, from
      the new coefficients. */
  lemma PredictedState(k: Band, d: word)
    requires k.Shaped()
    ensures var r := Predict(k, d);
            r.d[0] == d && r.d[1..] == k.d[..5] && r.r1 == Sat(k.s + d) && r.r2 == k.r1 && r.p2 == k.p1 &&
            r.s == Sat(r.sp + r.sz) && r.sp == FiltEp(r.r1, r.r2, r.a1, r.a2) && r.sz == Sat(Taps(r.d, r.b))
    ensures var r := Predict(k, d);
            k.s == k.sp + k.sz && MIN_WORD <= k.s + d <= MAX_WORD && MIN_WORD <= k.sz + d <= MAX_WORD ==>
              r.p1 == r.r1 - k.sp
    ensures var r := Predict(k, d);
            r.a2 == UpPol2(r.p1, k.p1, k.p2, k.a1, k.a2) && r.a1 == UpPol1(r.p1, k.p1, k.a1, r.a2) &&
            forall i :: 0 <= i < 6 ==> r.b[i] == UpZero(d, k.d[i], k.b[i])
  {
    hide UpPol2, UpPol1, UpZero, FiltEp, Taps;
    var r := Predict(k, d);
    assert r.d[1..] == k.d[..5];
  }

  // ---------------------------------------------------------------- the scale factor is monotonic

  lemma {:induction false} TableIncreases(i: nat, j: nat)
    requires i <= j < 32
    ensures ILB[i] <= ILB[j]
    decreases j - i
  {
    if i < j {
      TableIncreases(i, j - 1);
      NextEntry(j);
    }
  }

  lemma NextEntry(j: nat)
    requires 1 <= j < 32
    ensures ILB[j - 1] <= ILB[j]
  {
  }

  lemma {:induction false} ShrOrder(x: int, y: int, n: nat)
    requires x <= y
    ensures Shr(x, n) <= Shr(y, n)
    decreases n
  {
    if n > 0 {
      ShrOrder(x / 2, y / 2, n - 1);
    }
  }

  lemma {:induction false} ShrFurther(x: nat, m: nat, n: nat)
    requires m <= n
    ensures Shr(x, n) <= Shr(x, m)
    decreases n
  {
    if m == 0 {
      ShrShrinksNat(x, n);
    } else {
      ShrFurther(x / 2, m - 1, n - 1);
    }
  }

  lemma {:induction false} ShrShrinksNat(x: nat, n: nat)
    ensures 0 <= Shr(x, n) <= x
    decreases n
  {
    if n > 0 {
      ShrShrinksNat(x / 2, n - 1);
    }
  }

  /** A larger logarithm never gives a smaller scale factor. */
  lemma ScaleIncreases(k: Kind, m: nat, n: nat)
    requires m <= n <= k.LIMIT
    ensures Scale(k, m) <= Scale(k, n)
  {
    if m / 2048 == n / 2048 {
      SameOctave(k, m, n);
    } else {
      hide Mantissa, Shl, Shr;
      OctaveOrder(Mantissa(m), Mantissa(n), k.SHIFT - m / 2048, k.SHIFT - n / 2048);
    }
  }

  lemma SameOctave(k: Kind, m: nat, n: nat)
    requires m <= n <= k.LIMIT && m / 2048 == n / 2048
    ensures Scale(k, m) <= Scale(k, n)
  {
    MantissaOrder(m, n);
    hide Mantissa, Shl, Shr;
    var a, b, s := Mantissa(m), Mantissa(n), k.SHIFT - m / 2048;
    if s < 0 {
      ShlIsProduct(a, -s);
      ShlIsProduct(b, -s);
      MulMono(a, b, Pow2(-s));
    } else {
      ShrOrder(a, b, s);
    }
  }

  lemma MantissaOrder(m: nat, n: nat)
    requires m <= n && m / 2048 == n / 2048
    ensures Mantissa(m) <= Mantissa(n)
  {
    var i, j := m / 64, n / 64;
    assert i / 32 == m / 2048 && j / 32 == n / 2048;
    TableIncreases(i % 32, j % 32);
  }

  lemma OctaveOrder(a: nat, b: nat, s: int, t: int)
    requires a < 4096 && b >= 2048 && -1 <= t < s
    ensures Shr(a, s) <= if t < 0 then Shl(b, -t) else Shr(b, t)
  {
    if t < 0 {
      ShlIsProduct(b, 1);
      Pow2Values();
      ShrShrinksNat(a, s);
    } else {
      ShrFurther(a, t + 1, s);
      ShrOrder(a / 2, b, t);
    }
  }

  // ---------------------------------------------------------------- the procedures

  type Three = s: seq<word> | |s| == 3 witness [0, 0, 0]
  type Seven = s: seq<word> | |s| == 7 witness [0, 0, 0, 0, 0, 0, 0]

  /** band[] of struct g722_encode_state and struct g722_decode_state.  The arrays inside the C
      structure cannot be shared, so they are fields with values here.  Element types say that
      every int that is kept between statements fits 16 bits. */
  class BandState {
    var s: word
    var sp: word
    var sz: word
    var r: Three
    var a: Three
    var ap: Three
    var p: Three
    var d: Seven
    var b: Seven
    var bp: Seven
    var sg: Seven
    var nb: int32
    var det: int32

    ghost predicate Valid(k: Kind)
      reads this
    {
      nb >= 0 && 0 <= det <= 16384 && Value().Valid(k)
    }

    /** What lasts from sample to sample; index 0 of the arrays, ap, bp and sg are scratch. */
    ghost function Value(): (v: Band)
      requires nb >= 0 && 0 <= det <= 16384
      reads this
      ensures v.Shaped()
    {
      Band(s, sp, sz, r[1], r[2], a[1], a[2], p[1], p[2], d[1..], b[1..], nb, det)
    }

    /** memset and the first scale factor. */
    constructor (k: Kind)
      ensures Valid(k) && Value() == NewBand(k)
    {
      s, sp, sz := 0, 0, 0;
      r, a, ap, p := [0, 0, 0], [0, 0, 0], [0, 0, 0], [0, 0, 0];
      d, b, bp, sg := [0, 0, 0, 0, 0, 0, 0], [0, 0, 0, 0, 0, 0, 0], [0, 0, 0, 0, 0, 0, 0], [0, 0, 0, 0, 0, 0, 0];
      nb, det := 0, k.LEAST_DET;
      ScaleAtZero(k);
    }

    /** RECONS and PARREC. */
    method Reconstruct(diff: word)
      modifies this`d, this`r, this`p
      ensures d == old(d)[0 := diff] && r == old(r)[0 := Sat(s + diff)] && p == old(p)[0 := Sat(sz + diff)]
    {
      d := d[0 := diff];
      r := r[0 := Sat(s + diff)];
      p := p[0 := Sat(sz + diff)];
    }

    method UpdatePole2()
      modifies this`sg, this`ap
      ensures ap == old(ap)[2 := UpPol2(p[0], p[1], p[2], a[1], a[2])]
    {
      for i := 0 to 3
        invariant ap == old(ap) && forall j :: 0 <= j < i ==> sg[j] == Sign(p[j])
      {
        sg := sg[i := Sign(p[i])];
      }
      var a1: int32 := a[1];
      var wd1: int32 := Sat(4 * a1);
      var wd2: int32 := if sg[0] == sg[1] then -wd1 else wd1;
      if wd2 > 32767 {
        wd2 := 32767;
      }
      var wd3: int32 := wd2 / 128 + if sg[0] == sg[2] then 128 else -128;
      wd3 := wd3 + Scaled(a[2], 32512);
      if wd3 > 12288 {
        wd3 := 12288;
      } else if wd3 < -12288 {
        wd3 := -12288;
      }
      ap := ap[2 := wd3];
    }

    method UpdatePole1()
      requires Within(ap[2], 12288)
      modifies this`sg, this`ap
      ensures ap == old(ap)[1 := UpPol1(p[0], p[1], a[1], old(ap[2]))]
    {
      sg := sg[0 := Sign(p[0])];
      sg := sg[1 := Sign(p[1])];
      var wd1: int32 := if sg[0] == sg[1] then 192 else -192;
      var wd2: int32 := Scaled(a[1], 32640);
      ap := ap[1 := Sat(wd1 + wd2)];
      var wd3: int32 := Sat(15360 - ap[2]);
      if ap[1] > wd3 {
        ap := ap[1 := wd3];
      } else if ap[1] < -wd3 {
        ap := ap[1 := -wd3];
      }
    }

    method UpdateZeros(diff: word)
      modifies this`sg, this`bp
      ensures bp[1..] == UpZeros(diff, d[1..], b[1..])
    {
      var wd1: int32 := if diff == 0 then 0 else 128;
      sg := sg[0 := Sign(diff)];
      for i := 1 to 7
        invariant sg[0] == Sign(diff) && forall j :: 1 <= j < i ==> bp[j] == UpZero(diff, d[j], b[j])
      {
        sg := sg[i := Sign(d[i])];
        var wd2: int32 := if sg[i] == sg[0] then wd1 else -wd1;
        var wd3: int32 := Scaled(b[i], 32640);
        bp := bp[i := Sat(wd2 + wd3)];
      }
    }

    /** DELAYA. */
    method DelayZeros()
      modifies this`d, this`b
      ensures d[1..] == old(d[..6]) && b[1..] == bp[1..]
    {
      var i := 6;
      while i > 0
        invariant 0 <= i <= 6
        invariant forall j :: i < j <= 6 ==> d[j] == old(d)[j - 1] && b[j] == bp[j]
        invariant forall j :: 0 <= j <= i ==> d[j] == old(d)[j]
      {
        d := d[i := d[i - 1]];
        b := b[i := bp[i]];
        i := i - 1;
      }
      assert forall j :: 0 <= j < 6 ==> d[1..][j] == old(d[..6])[j] && b[1..][j] == bp[1..][j];
    }

    method DelayPoles()
      modifies this`r, this`p, this`a
      ensures r[1] == old(r[0]) && r[2] == old(r[1]) && p[1] == old(p[0]) && p[2] == old(p[1])
      ensures a[1] == ap[1] && a[2] == ap[2]
    {
      var i := 2;
      while i > 0
        invariant 0 <= i <= 2
        invariant forall j :: i < j <= 2 ==> r[j] == old(r)[j - 1] && p[j] == old(p)[j - 1] && a[j] == ap[j]
        invariant forall j :: 0 <= j <= i ==> r[j] == old(r)[j] && p[j] == old(p)[j]
      {
        r := r[i := r[i - 1]];
        p := p[i := p[i - 1]];
        a := a[i := ap[i]];
        i := i - 1;
      }
    }

    /** FILTEP, FILTEZ and PREDIC. */
    method Filter()
      modifies this`s, this`sp, this`sz
      ensures sp == FiltEp(r[1], r[2], a[1], a[2]) && sz == Sat(Taps(d[1..], b[1..])) && s == Sat(sp + sz)
    {
      var r1: int32, r2: int32 := r[1], r[2];
      var wd1: int32 := Sat(r1 + r1);
      wd1 := Scaled(a[1], wd1);
      var wd2: int32 := Sat(r2 + r2);
      wd2 := Scaled(a[2], wd2);
      sp := Sat(wd1 + wd2);
      var sum: int32 := 0;
      var i := 6;
      while i > 0
        invariant 0 <= i <= 6 && sum == Taps(d[i + 1..], b[i + 1..])
      {
        assert d[i..][1..] == d[i + 1..] && b[i..][1..] == b[i + 1..];
        var di: int32 := d[i];
        wd1 := Sat(di + di);
        sum := sum + Scaled(b[i], wd1);
        i := i - 1;
      }
      sz := Sat(sum);
      s := Sat(sp + sz);
    }

    /** block4. */
    method Block4(diff: word)
      requires nb >= 0 && 0 <= det <= 16384
      modifies this`s, this`sp, this`sz, this`r, this`a, this`ap, this`p, this`d, this`b, this`bp, this`sg
      ensures Value() == old(Predict(Value(), diff))
    {
      hide UpPol2, UpPol1, UpZeros, FiltEp, Taps, Sat;
      ghost var band := Value();
      ghost var next := Predict(band, diff);
      AdaptCoefficients(diff, band);
      DelayZeros();
      DelayPoles();
      Filter();
      assert d[1..] == next.d;
    }

    /** The part of block4 in front of DELAYA. */
    method AdaptCoefficients(diff: word, ghost band: Band)
      requires nb >= 0 && 0 <= det <= 16384 && band == Value()
      modifies this`r, this`ap, this`p, this`d, this`bp, this`sg
      ensures var next := Predict(band, diff);
              r[0] == next.r1 && r[1] == band.r1 && p[0] == next.p1 && p[1] == band.p1 &&
              d[..6] == next.d && bp[1..] == next.b && ap[1] == next.a1 && ap[2] == next.a2
    {
      hide UpPol2, UpPol1, UpZeros, FiltEp, Taps, Sat;
      Reconstruct(diff);
      assert d[..6] == [diff] + band.d[..5] && d[1..] == band.d;
      UpdatePole2();
      UpdatePole1();
      UpdateZeros(diff);
    }
  
    /** SCALEL and SCALEH. */
    method UpdateScale(k: Kind)
      requires 0 <= nb <= k.LIMIT
      modifies this`det
      ensures det == Scale(k, nb)
    {
      var wd1: int32 := nb / 64 % 32;
      var wd2: int32 := k.SHIFT - nb / 2048;
      OctaveIndex(nb);
      ScaleRange(k, nb, Mantissa(nb));
      assert Mantissa(nb) == ILB[wd1];
      hide Shl, Shr, Mantissa;
      var wd3: int32 := if wd2 < 0 then Shl(ILB[wd1], -wd2) else Shr(ILB[wd1], wd2);
      det := 4 * wd3;
    }

    /** INVQAL, LOGSCL, SCALEL and block4 (and their high-band counterparts) in g722_encode, where nb
        is clipped in place. */
    method AdaptByEncoder(k: Kind, code: nat)
      requires Valid(k) && code < (if k.Low? then 16 else 4)
      modifies this
      ensures Valid(k) && Value() == old(Adapt(k, Value(), code))
    {
      hide Scale, Predict;
      ghost var band := Value();
      var level := Level(k, code);
      DifferenceRange(det, level);
      var diff: int32 := Scaled(det, level);
      var wd: int32 := nb * 127 / 128;
      nb := wd + Step(k, code);
      if nb < 0 {
        nb := 0;
      } else if nb > k.LIMIT {
        nb := k.LIMIT;
      }
      UpdateScale(k);
      assert Value() == band.(nb := nb, det := det);
      Block4(diff);
      assert Value() == Adapt(k, band, code);
    }

    /** The same in g722_decode, where the new logarithm is clipped before it is stored. */
    method AdaptByDecoder(k: Kind, code: nat)
      requires Valid(k) && code < (if k.Low? then 16 else 4)
      modifies this
      ensures Valid(k) && Value() == old(Adapt(k, Value(), code))
    {
      hide Scale, Predict;
      ghost var band := Value();
      var level := Level(k, code);
      DifferenceRange(det, level);
      var diff: int32 := Scaled(det, level);
      var wd1: int32 := nb * 127 / 128;
      wd1 := wd1 + Step(k, code);
      if wd1 < 0 {
        wd1 := 0;
      } else if wd1 > k.LIMIT {
        wd1 := k.LIMIT;
      }
      nb := wd1;
      UpdateScale(k);
      assert Value() == band.(nb := nb, det := det);
      Block4(diff);
      assert Value() == Adapt(k, band, code);
    }
  }
}
