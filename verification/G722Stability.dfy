/** What the limits on the pole coefficients are for: the predictor of a band is a stable filter in
  every reachable state (section 3.6 of ITU-T G.722; g722/g722_decode.c:71-101). */
module G722Stability {
  import opened Words
  import opened G722Band

  /** A root x + iy of z^2 = a1 z + a2, the poles of the predictor. */
  predicate IsPole(a1: real, a2: real, x: real, y: real) {
    x * x - y * y == a1 * x + a2 && 2.0 * x * y == a1 * y
  }

  /** In every reachable state the poles lie inside the unit circle. */
  lemma PolesInsideUnitCircle(k: Kind, band: Band, x: real, y: real)
    requires band.Valid(k) && IsPole(band.a1 as real / 16384.0, band.a2 as real / 16384.0, x, y)
    ensures x * x + y * y < 1.0
  {
    StablePoles(band, x, y);
  }

  lemma StablePoles(band: Band, x: real, y: real)
    requires band.Stable() && IsPole(band.a1 as real / 16384.0, band.a2 as real / 16384.0, x, y)
    ensures x * x + y * y < 1.0
  {
    var a1, a2 := band.a1 as real / 16384.0, band.a2 as real / 16384.0;
    if y == 0.0 {
      RealPole(a1, a2, x);
    } else {
      assert y * (2.0 * x - a1) == 0.0;
      assert a1 == 2.0 * x;
      assert x * x + y * y == -a2;
    }
  }

  lemma RealPole(a1: real, a2: real, x: real)
    requires -0.75 <= a2 <= 0.75 && -(0.9375 - a2) <= a1 <= 0.9375 - a2 && x * x == a1 * x + a2
    ensures x * x < 1.0
  {
    var m := if x < 0.0 then -x else x;
    assert m * m == x * x;
    if m >= 1.0 {
      assert a1 * x <= (0.9375 - a2) * m by {
        if x < 0.0 {
          RealMono(-a1, 0.9375 - a2, m);
        } else {
          RealMono(a1, 0.9375 - a2, m);
        }
      }
      assert m * m - (0.9375 - a2) * m - a2 == (m - 1.0) * (m + a2) + 0.0625 * m;
      RealMono(0.0, m + a2, m - 1.0);
    } else {
      Square(m);
    }
  }

  lemma Square(m: real)
    requires 0.0 <= m < 1.0
    ensures m * m < 1.0
  {
    RealMono(m, 1.0, m);
  }

  lemma RealMono(a: real, b: real, c: real)
    requires a <= b && c >= 0.0
    ensures a * c <= b * c
  {
  }

  /** sp is within two units the next value of the recursion r[n] = a1 r[n-1] + a2 r[n-2], and every
      pole of that recursion is inside the circle. */
  ghost predicate StableRecursion(a1: real, a2: real, r1: real, r2: real, sp: real) {
    a1 * r1 + a2 * r2 - 2.0 < sp <= a1 * r1 + a2 * r2 && forall x, y :: IsPole(a1, a2, x, y) ==> x * x + y * y < 1.0
  }

  /** a1 r1 + a2 r2 in units of 2^-14. */
  function PoleSum(r: Band): int {
    var (a1: int, a2: int) := (r.a1, r.a2);
    a1 * r.r1 + a2 * r.r2
  }

  /** Neither the doubling of the two reconstructed values nor the sum saturates. */
  predicate Linear(r: Band) {
    Within(r.r1, 16383) && Within(r.r2, 16383) && -32766 * 16384 <= PoleSum(r) <= 32767 * 16384
  }

  /** So every prediction of a band, from any state and for any difference, is one step of a stable
      recursion over its two latest reconstructed values, as long as nothing saturates. */
  lemma PredictorIsStable(band: Band, d: word)
    requires band.Shaped()
    ensures var r := Predict(band, d);
            r.r1 == Sat(band.s + d) && r.r2 == band.r1 && r.s == Sat(r.sp + r.sz)
    ensures var r := Predict(band, d);
            Linear(r) ==> StableRecursion(r.a1 as real / 16384.0, r.a2 as real / 16384.0, r.r1 as real, r.r2 as real,
                                          r.sp as real)
  {
    hide Predict, FiltEp, IsPole, Taps, UpZero, UpPol1, UpPol2, PoleSum, StableRecursion;
    PredictedState(band, d);
    var r := Predict(band, d);
    if Linear(r) {
      RecursionIsStable(r);
    }
  }

  lemma RecursionIsStable(r: Band)
    requires r.Stable() && Linear(r) && r.sp == FiltEp(r.r1, r.r2, r.a1, r.a2)
    ensures StableRecursion(r.a1 as real / 16384.0, r.a2 as real / 16384.0, r.r1 as real, r.r2 as real, r.sp as real)
  {
    hide FiltEp, IsPole;
    PoleSection(r.r1, r.r2, r.a1, r.a2);
    InReals(r.r1, r.r2, r.a1, r.a2, r.sp);
    AllPoles(r, r.a1 as real / 16384.0, r.a2 as real / 16384.0);
  }

  lemma AllPoles(r: Band, a1: real, a2: real)
    requires r.Stable() && a1 == r.a1 as real / 16384.0 && a2 == r.a2 as real / 16384.0
    ensures forall x, y :: IsPole(a1, a2, x, y) ==> x * x + y * y < 1.0
  {
    hide IsPole;
    forall x, y | IsPole(a1, a2, x, y)
      ensures x * x + y * y < 1.0
    {
      StablePoles(r, x, y);
    }
  }

  lemma InReals(r1: int, r2: int, a1: int, a2: int, sp: int)
    requires var y := a1 * r1 + a2 * r2; y - 32768 < 16384 * sp <= y
    ensures var y := a1 as real / 16384.0 * r1 as real + a2 as real / 16384.0 * r2 as real;
            y - 2.0 < sp as real <= y
  {
    RealProduct(a1, r1);
    RealProduct(a2, r2);
  }

  lemma RealProduct(a: int, r: int)
    ensures a as real / 16384.0 * r as real == (a * r) as real / 16384.0
  {
  }
}
