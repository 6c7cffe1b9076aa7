/** What the reflection coefficients mean.  The step-up recursion turns r[1..n] into the prediction
  error filter of order n.  The Schur recursion of lpc.c finds the coefficients for which the output
  of that filter is uncorrelated with the last n samples, and the lattice of short_term.c is that
  filter; both up to the rounding of their 16-bit operations. */
module Prediction {
  import opened Words
  import ShortTerm
  import Lpc

  type coef = ShortTerm.coef

  // ---------------------------------------------------------------- step-up recursion

  function Ratio(r: coef): (k: real)
    ensures -1.0 < k < 1.0
  {
    r as real / 32768.0
  }

  function Pad(x: seq<real>): seq<real> {
    x + [0.0]
  }

  function Delayed(x: seq<real>): seq<real> {
    [0.0] + x
  }

  function Mul(k: real, y: real): real {
    k * y
  }

  function Plus(x: seq<real>, y: seq<real>, k: real): (z: seq<real>)
    requires |x| == |y|
    ensures |z| == |x|
  {
    seq(|x|, i requires 0 <= i < |x| => x[i] + Mul(k, y[i]))
  }

  /** The coefficients of the prediction error filter of order n, the latest sample's first. */
  function Forward(r: seq<coef>, n: nat): (f: seq<real>)
    requires n <= |r|
    ensures |f| == n + 1
    decreases n, r
  {
    if n == 0 then [1.0] else Plus(Pad(Forward(r, n - 1)), Delayed(Backward(r, n - 1)), Ratio(r[n - 1]))
  }

  /** The filter that predicts the oldest sample from those after it. */
  function Backward(r: seq<coef>, n: nat): (b: seq<real>)
    requires n <= |r|
    ensures |b| == n + 1
    decreases n, r
  {
    if n == 0 then [1.0] else Plus(Delayed(Backward(r, n - 1)), Pad(Forward(r, n - 1)), Ratio(r[n - 1]))
  }

  /** It has the same coefficients in reverse order. */
  lemma {:induction false} Reversal(r: seq<coef>, n: nat, i: nat)
    requires i <= n <= |r|
    ensures Backward(r, n)[i] == Forward(r, n)[n - i]
    decreases n
  {
    hide Ratio, Mul, Plus;
    if n > 0 {
      var f, b, k := Forward(r, n - 1), Backward(r, n - 1), Ratio(r[n - 1]);
      if i > 0 {
        Reversal(r, n - 1, i - 1);
      }
      if i < n {
        Reversal(r, n - 1, n - 1 - i);
      }
      PlusAt(Delayed(b), Pad(f), k, i);
      PlusAt(Pad(f), Delayed(b), k, n - i);
    }
  }

  lemma PlusAt(x: seq<real>, y: seq<real>, k: real, i: nat)
    requires i < |x| == |y|
    ensures Plus(x, y, k)[i] == x[i] + Mul(k, y[i])
  {
  }

  function Dot(c: seq<real>, x: seq<int>): real
    requires |c| == |x|
    decreases |c|
  {
    if c == [] then 0.0 else
      var n := |c| - 1;
      Dot(c[..n], x[..n]) + c[n] * (x[n] as real)
  }

  lemma {:induction false} DotPlus(x: seq<real>, y: seq<real>, k: real, w: seq<int>)
    requires |x| == |y| == |w|
    ensures Dot(Plus(x, y, k), w) == Dot(x, w) + k * Dot(y, w)
    decreases |x|
  {
    if x != [] {
      var n := |x| - 1;
      DotPlus(x[..n], y[..n], k, w[..n]);
      PlusPrefix(x, y, k, n);
      Distributed(Dot(x[..n], w[..n]), Dot(y[..n], w[..n]), x[n], y[n], k, w[n] as real);
    }
  }

  lemma PlusPrefix(x: seq<real>, y: seq<real>, k: real, n: nat)
    requires n <= |x| == |y|
    ensures Plus(x, y, k)[..n] == Plus(x[..n], y[..n], k)
  {
    forall i | 0 <= i < n
      ensures Plus(x, y, k)[..n][i] == Plus(x[..n], y[..n], k)[i]
    {
      assert x[..n][i] == x[i] && y[..n][i] == y[i];
    }
  }

  lemma Distributed(a: real, b: real, x: real, y: real, k: real, w: real)
    ensures (a + k * b) + (x + k * y) * w == (a + x * w) + k * (b + y * w)
  {
    assert (x + k * y) * w == x * w + (k * y) * w;
    assert (k * y) * w == k * (y * w);
    assert k * (b + y * w) == k * b + k * (y * w);
  }

  lemma DotPad(x: seq<real>, w: seq<int>)
    requires |w| == |x| + 1
    ensures Dot(Pad(x), w) == Dot(x, w[..|x|])
  {
    assert Pad(x)[..|x|] == x;
  }

  lemma {:induction false} DotDelayed(x: seq<real>, w: seq<int>)
    requires |w| == |x| + 1
    ensures Dot(Delayed(x), w) == Dot(x, w[1..])
    decreases |x|
  {
    var n := |x|;
    assert Delayed(x)[..n] == if n == 0 then [] else Delayed(x[..n - 1]);
    if n > 0 {
      DotDelayed(x[..n - 1], w[..n]);
      assert w[..n][1..] == w[1..][..n - 1];
    } else {
      assert Delayed(x)[..0] == [] && w[..0] == [];
    }
  }

  /** One step of either filter on a window of n + 1 values. */
  lemma StepUp(r: seq<coef>, n: nat, w: seq<int>)
    requires 1 <= n <= |r| && |w| == n + 1
    ensures var f, b := Dot(Forward(r, n - 1), w[..n]), Dot(Backward(r, n - 1), w[1..]);
            Dot(Forward(r, n), w) == f + Mul(Ratio(r[n - 1]), b) && Dot(Backward(r, n), w) == b + Mul(Ratio(r[n - 1]), f)
  {
    hide Dot, Plus, Pad, Delayed;
    var f, b, k := Forward(r, n - 1), Backward(r, n - 1), Ratio(r[n - 1]);
    LengthsAre(f, b);
    DotPlus(Pad(f), Delayed(b), k, w);
    DotPlus(Delayed(b), Pad(f), k, w);
    DotPad(f, w);
    DotDelayed(b, w);
  }

  lemma LengthsAre(f: seq<real>, b: seq<real>)
    ensures |Pad(f)| == |f| + 1 && |Delayed(b)| == |b| + 1
  {
  }

  // ---------------------------------------------------------------- rounding

  ghost predicate Near(x: int, y: real, e: real) {
    -e <= x as real - y <= e
  }

  /** The error of n lattice stages: each doubles the error and adds half a unit. */
  function Slack(n: nat): (e: real)
    ensures e >= 0.0
    decreases n
  {
    if n == 0 then 0.0 else 2.0 * Slack(n - 1) + 0.5
  }

  /** (2^n - 1) / 2. */
  lemma {:induction false} SlackValue(n: nat)
    ensures 2.0 * Slack(n) == Pow2(n) as real - 1.0
  {
    if n > 0 {
      SlackValue(n - 1);
    }
  }

  lemma {:induction false} RealProduct(a: int, b: int)
    ensures (a * b) as real == a as real * (b as real)
    decreases if a < 0 then -a else a
  {
    if a > 0 {
      RealProduct(a - 1, b);
      assert a * b == (a - 1) * b + b;
    } else if a < 0 {
      RealProduct(a + 1, b);
      assert a * b == (a + 1) * b - b;
    }
  }

  lemma ProductValue(r: coef, y: word, p: int)
    requires p == r * y
    ensures MultR(r, y) == MultR(y, r) == (p + 16384) / 0x8000
  {
    MultRValue(r, y);
    MultRValue(y, r);
    var a: int, b: int := r, y;
    assert a * b == b * a;
  }

  lemma ProductRounds(r: coef, y: word)
    ensures Near(MultR(r, y), Ratio(r) * (y as real), 0.5) && MultR(y, r) == MultR(r, y)
  {
    hide MultR, Near, Ratio;
    var a: int, b: int := r, y;
    var p := a * b;
    ProductValue(r, y, p);
    Rounded(p, (p + 16384) / 0x8000);
    RatioProduct(r, b, p);
  }

  lemma RatioProduct(r: coef, b: int, p: int)
    requires p == r * b
    ensures Ratio(r) * (b as real) == p as real / 32768.0
  {
    var a: int := r;
    RealProduct(a, b);
    var x, y := a as real, b as real;
    Quotients(x, y);
    assert Ratio(r) == x / 32768.0;
  }

  lemma DistributedDifference(k: real, x: real, y: real)
    ensures k * (x - y) == k * x - k * y
  {
  }

  lemma Quotients(a: real, b: real)
    ensures a / 32768.0 * b == a * b / 32768.0
  {
  }

  lemma Rounded(p: int, q: int)
    requires q == (p + 16384) / 0x8000
    ensures Near(q, p as real / 32768.0, 0.5)
  {
    assert 0x8000 * q <= p + 16384 < 0x8000 * q + 0x8000;
  }

  /** One multiplication and addition of a stage. */
  lemma StageRounds(x: int, y: word, r: coef, x': real, y': real, e: real)
    requires Near(x, x', e) && Near(y, y', e)
    ensures Near(x + MultR(r, y), x' + Mul(Ratio(r), y'), 2.0 * e + 0.5)
  {
    hide MultR;
    ProductRounds(r, y);
    var k := Ratio(r);
    Shrinks(k, y as real - y', e);
    DistributedDifference(k, y as real, y');
  }

  lemma Shrinks(k: real, x: real, e: real)
    requires -1.0 <= k <= 1.0 && -e <= x <= e
    ensures -e <= k * x <= e
  {
    if k >= 0.0 {
      ShrinksUp(k, x, e);
    } else {
      ShrinksUp(-k, x, e);
      assert -k * x == -(k * x);
    }
  }

  lemma ShrinksUp(k: real, x: real, e: real)
    requires 0.0 <= k <= 1.0 && -e <= x <= e
    ensures -e <= k * x <= e
  {
    hide Mul;
    Mono(k, x, e);
    Mono(k, -e, x);
    Mono(e, k, 1.0);
    MulSigns(k, e);
    MulIs(k, x);
  }

  lemma MulSigns(k: real, e: real)
    ensures Mul(k, -e) == -Mul(k, e) && Mul(k, e) == Mul(e, k) && Mul(e, 1.0) == e
  {
  }

  lemma Mono(c: real, a: real, b: real)
    requires c >= 0.0 && a <= b
    ensures Mul(c, a) <= Mul(c, b)
  {
    assert c * (b - a) >= 0.0;
  }

  // ---------------------------------------------------------------- the Schur recursion

  /** P and K after n steps with the coefficients r[1..n]; r[0] here is r[1] of the C code. */
  function After(a: seq<word>, r: seq<coef>, n: nat): (pk: (seq<word>, seq<word>))
    requires |a| == 9 && n <= |r| == 8
    ensures |pk.0| == |pk.1| == 9
    decreases n, a
  {
    if n == 0 then (a, Lpc.InitialK(a)) else
      var (p, k) := After(a, r, n - 1);
      (Lpc.NextP(p, k, r[n - 1], n), Lpc.NextK(p, k, r[n - 1], n))
  }

  predicate Fits(x: int) {
    MIN_WORD <= x <= MAX_WORD
  }

  /** No addition of step n saturates. */
  predicate Exact(p: seq<word>, k: seq<word>, r: coef, n: nat)
    requires |p| == |k| == 9 && 1 <= n <= 8
  {
    Fits(p[0] + MultR(p[1], r)) &&
    forall m :: 1 <= m <= 8 - n ==> Fits(p[m + 1] + MultR(k[m], r)) && Fits(k[m] + MultR(p[m + 1], r))
  }

  predicate ExactUpTo(a: seq<word>, r: seq<coef>, n: nat)
    requires |a| == 9 && n <= |r| == 8
    decreases n
  {
    n == 0 ||
    (ExactUpTo(a, r, n - 1) && var (p, k) := After(a, r, n - 1); Exact(p, k, r[n - 1], n))
  }

  /** a[|l|], a[|l - 1|], ..., a[|l - n|]: the correlations of lag l with n + 1 past samples. */
  function Lags(a: seq<word>, l: nat, n: nat): (w: seq<int>)
    requires |a| == 9 && l <= 8 && n <= 8
    ensures |w| == n + 1
  {
    seq(n + 1, i requires 0 <= i <= n => a[if i <= l then l - i else i - l])
  }

  lemma LagsSplit(a: seq<word>, l: nat, n: nat)
    requires |a| == 9 && 1 <= l <= 8 && 1 <= n <= 8
    ensures Lags(a, l, n)[..n] == Lags(a, l, n - 1) && Lags(a, l, n)[1..] == Lags(a, l - 1, n - 1)
  {
  }

  lemma LagsOne(a: seq<word>, m: nat)
    requires |a| == 9 && m <= 8
    ensures Lags(a, m, 0) == [a[m] as int]
  {
  }

  /** After n steps P[m] is the correlation of the order-n error with lag n + m, K[m] that of the
      backward error, and P[0] the power of the error. */
  ghost predicate Tracks(a: seq<word>, r: seq<coef>, n: nat)
    requires |a| == 9 && n <= |r| == 8
  {
    var (p, k) := After(a, r, n);
    Near(p[0], Dot(Backward(r, n), Lags(a, n, n)), Slack(n)) &&
    forall m :: 1 <= m <= 8 - n ==>
      Near(p[m], Dot(Forward(r, n), Lags(a, n + m, n)), Slack(n)) &&
      (m < 8 ==> Near(k[m], Dot(Backward(r, n), Lags(a, n + m, n)), Slack(n)))
  }

  lemma {:induction false} SchurTracks(a: seq<word>, r: seq<coef>, n: nat)
    requires |a| == 9 && n <= |r| == 8 && ExactUpTo(a, r, n)
    ensures Tracks(a, r, n)
    decreases n
  {
    hide Tracks, After, Exact;
    if n == 0 {
      TracksZero(a, r);
    } else {
      SchurTracks(a, r, n - 1);
      TracksNext(a, r, n);
    }
  }

  lemma TracksZero(a: seq<word>, r: seq<coef>)
    requires |a| == 9 && |r| == 8
    ensures Tracks(a, r, 0)
  {
    hide Lags;
    forall m | 0 <= m <= 8
      ensures Dot([1.0], Lags(a, m, 0)) == a[m] as real
    {
      LagsOne(a, m);
      assert Dot([], []) == 0.0;
    }
  }

  lemma TracksNext(a: seq<word>, r: seq<coef>, n: nat)
    requires |a| == 9 && 1 <= n <= |r| == 8 && Tracks(a, r, n - 1)
    requires var (p, k) := After(a, r, n - 1); Exact(p, k, r[n - 1], n)
    ensures Tracks(a, r, n)
  {
    hide Lags, Slack, Dot, Lpc.NextP, Lpc.NextK, Lpc.InitialK, Near, Exact, Forward, Backward;
    var (p, k) := After(a, r, n - 1);
    var (p', k') := After(a, r, n);
    PowerTracks(a, r, n, p, k);
    forall m | 1 <= m <= 8 - n
      ensures Near(p'[m], Dot(Forward(r, n), Lags(a, n + m, n)), Slack(n))
      ensures Near(k'[m], Dot(Backward(r, n), Lags(a, n + m, n)), Slack(n))
    {
      assert n - 1 + (m + 1) == n + m && n - 1 + m == n + m - 1;
      StepTracks(a, r, n, m, p, k);
    }
  }

  lemma NextAt(p: seq<word>, k: seq<word>, r: coef, n: nat, m: nat)
    requires |p| == |k| == 9 && 1 <= n <= 8 && m <= 8 - n && Exact(p, k, r, n)
    ensures m == 0 ==> Lpc.NextP(p, k, r, n)[0] == p[0] + MultR(r, p[1])
    ensures m > 0 ==> Lpc.NextP(p, k, r, n)[m] == p[m + 1] + MultR(r, k[m])
    ensures m > 0 ==> Lpc.NextK(p, k, r, n)[m] == k[m] + MultR(r, p[m + 1])
  {
    hide MultR;
    ProductRounds(r, p[1]);
    assert Lpc.NextP(p, k, r, n)[0] == Add(p[0], MultR(p[1], r));
    if m > 0 {
      ProductRounds(r, k[m]);
      ProductRounds(r, p[m + 1]);
    }
  }

  lemma SlackStep(n: nat)
    requires n > 0
    ensures Slack(n) == 2.0 * Slack(n - 1) + 0.5
  {
  }

  /** A step of both recursions on numbers alone. */
  lemma StepOnValues(f: real, b: real, f': real, b': real, x: word, y: word, r: coef, n: nat)
    requires n > 0 && Near(x, f, Slack(n - 1)) && Near(y, b, Slack(n - 1))
    requires f' == f + Mul(Ratio(r), b) && b' == b + Mul(Ratio(r), f)
    ensures Near(x + MultR(r, y), f', Slack(n)) && Near(y + MultR(r, x), b', Slack(n))
  {
    hide Near, MultR, Ratio, Mul, Slack;
    SlackStep(n);
    StageRounds(x, y, r, f, b, Slack(n - 1));
    StageRounds(y, x, r, b, f, Slack(n - 1));
  }

  lemma StepTracks(a: seq<word>, r: seq<coef>, n: nat, m: nat, p: seq<word>, k: seq<word>)
    requires |a| == 9 && 1 <= n <= |r| == 8 && 1 <= m <= 8 - n && |p| == |k| == 9
    requires Near(p[m + 1], Dot(Forward(r, n - 1), Lags(a, n + m, n - 1)), Slack(n - 1))
    requires Near(k[m], Dot(Backward(r, n - 1), Lags(a, n + m - 1, n - 1)), Slack(n - 1))
    requires Exact(p, k, r[n - 1], n)
    ensures Near(Lpc.NextP(p, k, r[n - 1], n)[m], Dot(Forward(r, n), Lags(a, n + m, n)), Slack(n))
    ensures Near(Lpc.NextK(p, k, r[n - 1], n)[m], Dot(Backward(r, n), Lags(a, n + m, n)), Slack(n))
  {
    hide Dot, Forward, Backward, Lags, MultR, Ratio, Mul, Near, Exact, Lpc.NextP, Lpc.NextK, Slack;
    var w := Lags(a, n + m, n);
    LagsSplit(a, n + m, n);
    StepUp(r, n, w);
    NextAt(p, k, r[n - 1], n, m);
    StepOnValues(Dot(Forward(r, n - 1), w[..n]), Dot(Backward(r, n - 1), w[1..]), Dot(Forward(r, n), w),
                 Dot(Backward(r, n), w), p[m + 1], k[m], r[n - 1], n);
  }

  lemma PowerTracks(a: seq<word>, r: seq<coef>, n: nat, p: seq<word>, k: seq<word>)
    requires |a| == 9 && 1 <= n <= |r| == 8 && |p| == |k| == 9
    requires Near(p[1], Dot(Forward(r, n - 1), Lags(a, n, n - 1)), Slack(n - 1))
    requires Near(p[0], Dot(Backward(r, n - 1), Lags(a, n - 1, n - 1)), Slack(n - 1))
    requires Exact(p, k, r[n - 1], n)
    ensures Near(Lpc.NextP(p, k, r[n - 1], n)[0], Dot(Backward(r, n), Lags(a, n, n)), Slack(n))
  {
    hide Dot, Forward, Backward, Lags, MultR, Ratio, Mul, Near, Exact, Lpc.NextP, Lpc.NextK, Slack;
    var w := Lags(a, n, n);
    LagsSplit(a, n, n);
    StepUp(r, n, w);
    NextAt(p, k, r[n - 1], n, 0);
    StepOnValues(Dot(Forward(r, n - 1), w[..n]), Dot(Backward(r, n - 1), w[1..]), Dot(Forward(r, n), w),
                 Dot(Backward(r, n), w), p[1], p[0], r[n - 1], n);
  }

  // ---------------------------------------------------------------- normal equations

  /** The Schur recursion has not met an error power below its correlation before step n. */
  predicate Reached(a: seq<word>, r: seq<coef>, n: nat)
    requires |a| == 9 && n <= |r| == 8
  {
    forall j :: 0 <= j < n ==> var p := After(a, r, j).0; Abs(p[1]) <= p[0]
  }

  lemma {:induction false} SchurSuffix(a: seq<word>, r: seq<coef>, n: nat)
    requires |a| == 9 && n < |r| == 8 && r == Lpc.Schur(a, Lpc.InitialK(a), 1) && Reached(a, r, n)
    ensures var (p, k) := After(a, r, n); r[n..] == Lpc.Schur(p, k, n + 1)
    decreases n
  {
    hide Lpc.NextP, Lpc.NextK, Lpc.Reflection, Lpc.InitialK;
    if n > 0 {
      SchurSuffix(a, r, n - 1);
      assert r[n..] == r[n - 1..][1..] && r[n - 1] == r[n - 1..][0];
    }
  }

  lemma ReflectionUsed(a: seq<word>, r: seq<coef>, n: nat)
    requires |a| == 9 && 1 <= n <= |r| == 8 && r == Lpc.Schur(a, Lpc.InitialK(a), 1) && Reached(a, r, n)
    ensures var p := After(a, r, n - 1).0; r[n - 1] == Lpc.Reflection(p[0], p[1])
  {
    hide Lpc.NextP, Lpc.NextK, Lpc.Reflection, Lpc.InitialK, After;
    SchurSuffix(a, r, n - 1);
    assert r[n - 1] == r[n - 1..][0];
  }

  /** The coefficient makes the next correlation vanish, up to one unit, or two where GSM_ABS clips
      MIN_WORD. */
  lemma ReflectionCancels(p0: word, p1: word)
    requires Abs(p1) <= p0
    ensures Near(p1, -Mul(Ratio(Lpc.Reflection(p0, p1)), p0 as real), 2.0)
  {
    var r := Lpc.Reflection(p0, p1);
    var x: int, y: int, z: int := r, p0, p1;
    ReflectionClose(p0, p1);
    RatioProduct(r, y, x * y);
    MulIs(Ratio(r), y as real);
    Scaled(z, x * y);
  }

  lemma Scaled(z: int, xy: int)
    requires -65536 <= z * 0x8000 + xy <= 65536
    ensures -2.0 <= z as real + xy as real / 32768.0 <= 2.0
  {
  }

  lemma ReflectionClose(p0: word, p1: word)
    requires Abs(p1) <= p0
    ensures var r: int, p: int := Lpc.Reflection(p0, p1), p0;
            -65536 <= p1 * 0x8000 + r * p <= 65536
  {
    var a := Abs(p1);
    var q := Quotient(a, p0);
    QuotientClose(a, p0, q);
    var r: int, p: int := Lpc.Reflection(p0, p1), p0;
    if p1 > 0 {
      assert r * p == -(q * p);
    } else {
      assert r * p == q * p;
    }
  }

  lemma QuotientClose(a: word, p0: word, q: int)
    requires 0 <= a <= p0 && q == Quotient(a, p0)
    ensures -32768 <= a * 0x8000 - q * p0 <= 32768
  {
    if a > 0 {
      if a < p0 {
        DivBounds(a * 0x8000, p0, q);
        assert p0 * q == q * p0 && p0 * (q + 1) == q * p0 + p0;
      }
    }
  }

  lemma {:induction false} DotHead(c: seq<real>, x: seq<int>)
    requires |c| == |x| > 0
    ensures Dot(c, x) == c[0] * (x[0] as real) + Dot(c[1..], x[1..])
    decreases |c|
  {
    var n := |c| - 1;
    if n > 0 {
      DotHead(c[..n], x[..n]);
      assert c[..n][1..] == c[1..][..n - 1] && x[..n][1..] == x[1..][..n - 1];
    } else {
      assert c[..0] == c[1..] && x[..0] == x[1..];
    }
  }

  lemma {:induction false} DotReversed(b: seq<real>, f: seq<real>, w: seq<int>, v: seq<int>)
    requires |b| == |f| == |w| == |v|
    requires forall i :: 0 <= i < |b| ==> b[i] == f[|b| - 1 - i] && w[i] == v[|b| - 1 - i]
    ensures Dot(b, w) == Dot(f, v)
    decreases |b|
  {
    if b != [] {
      var n := |b| - 1;
      DotHead(f, v);
      DotReversed(b[..n], f[1..], w[..n], v[1..]);
    }
  }

  /** The correlation of the order-n prediction error with the sample l steps before. */
  function ErrorLag(a: seq<word>, r: seq<coef>, n: nat, l: nat): real
    requires |a| == 9 && n <= |r| == 8 && l <= 8
  {
    Dot(Forward(r, n), Lags(a, l, n))
  }

  /** The backward error has the same correlations, counted from the other end. */
  lemma BackwardLag(a: seq<word>, r: seq<coef>, n: nat, l: nat)
    requires |a| == 9 && n <= |r| == 8 && l <= n
    ensures Dot(Backward(r, n), Lags(a, l, n)) == ErrorLag(a, r, n, n - l)
  {
    hide Dot, Forward, Backward;
    forall i | 0 <= i <= n
      ensures Backward(r, n)[i] == Forward(r, n)[n - i]
    {
      Reversal(r, n, i);
    }
    DotReversed(Backward(r, n), Forward(r, n), Lags(a, l, n), Lags(a, n - l, n));
  }

  /** 2^n, for the error of order n. */
  function Bound(n: nat): (x: real)
    requires n >= 1
    ensures x >= 2.0
    decreases n
  {
    if n == 1 then 2.0 else 2.0 * Bound(n - 1)
  }

  lemma {:induction false} BoundValue(n: nat)
    requires n >= 1
    ensures Bound(n) == Pow2(n) as real && 2.0 + 2.0 * Slack(n - 1) <= Bound(n)
  {
    SlackValue(n - 1);
    if n > 1 {
      BoundValue(n - 1);
    }
  }

  /** Normal equations by induction on the order, for coefficients that cancel step by step. */
  lemma {:induction false} Decorrelates(a: seq<word>, r: seq<coef>, n: nat, l: nat)
    requires |a| == 9 && 1 <= l <= n <= |r| == 8 && ExactUpTo(a, r, n - 1)
    requires forall j :: 0 <= j < n ==>
               var p := After(a, r, j).0; Near(p[1], -Mul(Ratio(r[j]), p[0] as real), 2.0)
    ensures -Bound(n) <= ErrorLag(a, r, n, l) <= Bound(n)
    decreases n
  {
    hide Dot, Forward, Backward, Mul, Ratio, Near, After, Lags, ExactUpTo;
    var w := Lags(a, l, n);
    LagsSplit(a, l, n);
    StepUp(r, n, w);
    var f, b, k := ErrorLag(a, r, n - 1, l), Dot(Backward(r, n - 1), Lags(a, l - 1, n - 1)), Ratio(r[n - 1]);
    if l < n {
      BackwardLag(a, r, n - 1, l - 1);
      ExactBefore(a, r, n - 1);
      Decorrelates(a, r, n - 1, l);
      Decorrelates(a, r, n - 1, n - l);
      RatioRange(r[n - 1]);
      Shrinks(k, b, Bound(n - 1));
      MulIs(k, b);
    } else {
      SchurTracks(a, r, n - 1);
      var p := After(a, r, n - 1).0;
      Cancelled(p[0], p[1], k, f, b, Slack(n - 1));
      BoundValue(n);
    }
  }

  lemma ExactBefore(a: seq<word>, r: seq<coef>, n: nat)
    requires |a| == 9 && 1 <= n <= |r| == 8 && ExactUpTo(a, r, n)
    ensures ExactUpTo(a, r, n - 1)
  {
  }

  lemma RatioRange(r: coef)
    ensures -1.0 <= Ratio(r) <= 1.0
  {
  }

  lemma MulIs(k: real, b: real)
    ensures Mul(k, b) == k * b
  {
  }

  lemma Cancelled(p0: word, p1: word, k: real, f: real, b: real, e: real)
    requires Near(p1, f, e) && Near(p0, b, e) && -1.0 <= k <= 1.0 && Near(p1, -Mul(k, p0 as real), 2.0)
    ensures -(2.0 + 2.0 * e) <= f + Mul(k, b) <= 2.0 + 2.0 * e
  {
    var p := p0 as real;
    Shrinks(k, p - b, e);
    DistributedDifference(k, p, b);
    MulIs(k, p);
    MulIs(k, b);
    hide Mul;
    var kp, kb := Mul(k, p), Mul(k, b);
    assert -e <= kp - kb <= e;
  }

  /** Reflection_coefficients solves the normal equations: for every frame and every order that the
      recursion reaches, as long as no addition has saturated, the prediction error of that order
      is uncorrelated with each of the last n samples, to 2^n units of the normalised
      correlations, of which the energy has at least 16384. */
  lemma NormalEquations(acf: seq<longword>, n: nat, l: nat)
    requires Lpc.Dominated(acf) && acf[0] != 0 && 1 <= l <= n <= 8
    requires var a, r := Lpc.Normalised(acf), Lpc.ReflectionCoefficients(acf);
             Reached(a, r, n) && ExactUpTo(a, r, n - 1)
    ensures var a, r := Lpc.Normalised(acf), Lpc.ReflectionCoefficients(acf);
            -(Pow2(n) as real) <= ErrorLag(a, r, n, l) <= Pow2(n) as real
  {
    hide Lpc.Normalised, Lpc.Schur, Lpc.InitialK, Lpc.Reflection, After, ErrorLag, Near, ExactUpTo;
    var a, r := Lpc.Normalised(acf), Lpc.ReflectionCoefficients(acf);
    forall j | 0 <= j < n
      ensures var p := After(a, r, j).0; Near(p[1], -Mul(Ratio(r[j]), p[0] as real), 2.0)
    {
      ReflectionUsed(a, r, j + 1);
      var p := After(a, r, j).0;
      ReflectionCancels(p[0], p[1]);
    }
    Decorrelates(a, r, n, l);
    BoundValue(n);
  }

  // ---------------------------------------------------------------- the lattice

  /** No addition of the analysis lattice saturates, from stage i on. */
  predicate Clear(rp: seq<coef>, u: seq<word>, i: nat, di: word, sav: word)
    requires i <= |rp| == |u|
    decreases |u| - i
  {
    i == |u| ||
    (Fits(di + MultR(rp[i], u[i])) && Fits(u[i] + MultR(rp[i], di)) &&
     Clear(rp, u, i + 1, Add(di, MultR(rp[i], u[i])), Add(u[i], MultR(rp[i], di))))
  }

  predicate ClearSignal(rp: seq<coef>, u: seq<word>, s: seq<word>)
    requires |rp| == |u|
    decreases |s|
  {
    s == [] ||
    (Clear(rp, u, 0, s[0], s[0]) && ClearSignal(rp, ShortTerm.Analyse(rp, u, 0, s[0], s[0]).0, s[1..]))
  }

  /** The last n + 1 samples of a signal, latest first, with zeros before its beginning. */
  function Past(h: seq<word>, n: nat): (w: seq<int>)
    ensures |w| == n + 1
  {
    seq(n + 1, j requires 0 <= j <= n => if j < |h| then h[|h| - 1 - j] else 0)
  }

  lemma PastSplit(h: seq<word>, x: word, n: nat)
    requires n >= 1
    ensures Past(h + [x], n)[..n] == Past(h + [x], n - 1) && Past(h + [x], n)[1..] == Past(h, n - 1)
  {
  }

  /** u[i] holds the backward error of order i at the last sample. */
  ghost predicate Remembers(rp: seq<coef>, u: seq<word>, h: seq<word>)
    requires |rp| == |u|
  {
    forall i :: 0 <= i < |u| ==> Near(u[i], Dot(Backward(rp, i), Past(h, i)), Slack(i))
  }

  /** One sample through the stages: the forward path carries the prediction errors of increasing
      order, and the memory becomes that of the backward errors. */
  lemma {:induction false} StagesTrack(rp: seq<coef>, u: seq<word>, h: seq<word>, x: word, i: nat, di: word, sav: word)
    requires i <= |rp| == |u| && Remembers(rp, u, h) && Clear(rp, u, i, di, sav)
    requires Near(di, Dot(Forward(rp, i), Past(h + [x], i)), Slack(i))
    requires Near(sav, Dot(Backward(rp, i), Past(h + [x], i)), Slack(i))
    ensures var (memory, d) := ShortTerm.Analyse(rp, u, i, di, sav);
            Near(d, Dot(Forward(rp, |u|), Past(h + [x], |u|)), Slack(|u|)) &&
            forall j :: i <= j < |u| ==> Near(memory[j - i], Dot(Backward(rp, j), Past(h + [x], j)), Slack(j))
    decreases |u| - i
  {
    hide Dot, Forward, Backward, Past, MultR, Ratio, Mul, Near, Slack;
    if i < |u| {
      var w := Past(h + [x], i + 1);
      PastSplit(h, x, i + 1);
      StepUp(rp, i + 1, w);
      StepOnValues(Dot(Forward(rp, i), w[..i + 1]), Dot(Backward(rp, i), w[1..]), Dot(Forward(rp, i + 1), w),
                   Dot(Backward(rp, i + 1), w), di, u[i], rp[i], i + 1);
      var di', sav' := Add(di, MultR(rp[i], u[i])), Add(u[i], MultR(rp[i], di));
      StagesTrack(rp, u, h, x, i + 1, di', sav');
      var (memory, d) := ShortTerm.Analyse(rp, u, i + 1, di', sav');
      forall j | i <= j < |u|
        ensures Near(([sav] + memory)[j - i], Dot(Backward(rp, j), Past(h + [x], j)), Slack(j))
      {
        if j > i {
          assert ([sav] + memory)[j - i] == memory[j - (i + 1)];
        }
      }
    }
  }

  /** A sample as it enters the lattice is the error of order zero. */
  lemma OrderZero(rp: seq<coef>, h: seq<word>, x: word)
    ensures Near(x, Dot(Forward(rp, 0), Past(h + [x], 0)), Slack(0))
    ensures Near(x, Dot(Backward(rp, 0), Past(h + [x], 0)), Slack(0))
  {
    assert Past(h + [x], 0) == [x];
    assert Dot([], []) == 0.0;
  }

  lemma {:induction false} SignalTracks(rp: seq<coef>, u: seq<word>, h: seq<word>, s: seq<word>, t: nat)
    requires |rp| == |u| && Remembers(rp, u, h) && ClearSignal(rp, u, s) && t < |s|
    ensures Near(ShortTerm.AnalyseSignal(rp, u, s).1[t], Dot(Forward(rp, |u|), Past(h + s[..t + 1], |u|)), Slack(|u|))
    decreases |s|
  {
    hide Dot, Forward, Backward, Past, Near, Slack, Clear, ShortTerm.Analyse;
    var x := s[0];
    var (u', d) := ShortTerm.Analyse(rp, u, 0, x, x);
    OrderZero(rp, h, x);
    StagesTrack(rp, u, h, x, 0, x, x);
    if t == 0 {
      assert s[..1] == [x];
    } else {
      SignalTracks(rp, u', h + [x], s[1..], t - 1);
      assert h + s[..t + 1] == h + [x] + s[1..][..t];
    }
  }

  lemma {:induction false} DotZero(c: seq<real>, w: seq<int>)
    requires |c| == |w| && forall i :: 0 <= i < |w| ==> w[i] == 0
    ensures Dot(c, w) == 0.0
    decreases |c|
  {
    if c != [] {
      DotZero(c[..|c| - 1], w[..|c| - 1]);
    }
  }

  /** The short-term analysis filter is the prediction error filter of its coefficients: from a
      cleared memory, as long as no addition saturates, every output sample is the combination of
      the last samples with the weights of the step-up recursion, to (2^8 - 1) / 2 for eight stages. */
  lemma LatticeIsPredictionError(rp: seq<coef>, u: seq<word>, s: seq<word>, t: nat)
    requires |rp| == |u| && ShortTerm.Quiet(u) && ClearSignal(rp, u, s) && t < |s|
    ensures var exact := Dot(Forward(rp, |u|), Past(s[..t + 1], |u|));
            var d := ShortTerm.AnalyseSignal(rp, u, s).1[t];
            -(Pow2(|u|) as real - 1.0) <= 2.0 * (d as real - exact) <= Pow2(|u|) as real - 1.0
  {
    hide Dot, Forward, Backward;
    forall i | 0 <= i < |u|
      ensures Near(u[i], Dot(Backward(rp, i), Past([], i)), Slack(i))
    {
      DotZero(Backward(rp, i), Past([], i));
    }
    SignalTracks(rp, u, [], s, t);
    assert [] + s[..t + 1] == s[..t + 1];
    SlackValue(|u|);
  }
}
