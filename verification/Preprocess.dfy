/** Downscaling, offset compensation and pre-emphasis (gsm/src/preprocess.c).

  The high-pass filter keeps a 32-bit state.  The code stores its upper half in a 16-bit word and
  adds with saturation; the invariant below shows that neither ever loses anything: the quantity
  z1 * 2^15 - L_z2 is a rounded convex average of past inputs. */
module Preprocess {
  import opened Words

  datatype PreState = PreState(z1: word, lz2: longword, mp: word)

  const INITIAL := PreState(0, 0, 0)

  /** 4.2.1: the scaled input, always a multiple of four. */
  function Downscaled(s: word): (so: word)
    ensures -0x4000 <= so <= 0x3FFC && so % 4 == 0
  {
    s / 8 * 4
  }

  /** The average of past inputs that the filter subtracts, in units of 2^-15. */
  function Average(st: PreState): int {
    st.z1 * 0x8000 - st.lz2
  }

  /** The average stays within the range of the inputs, up to accumulated rounding of 497. */
  predicate Inv(st: PreState) {
    -0x4000 <= st.z1 <= 0x3FFC &&
    -0x4000 * 0x8000 - 497 <= Average(st) <= 0x3FFC * 0x8000 + 497
  }

  /** Every reachable filter state is below 2^30 in magnitude. */
  lemma StateBound(st: PreState)
    requires Inv(st)
    ensures -0x4000_0000 < st.lz2 < 0x4000_0000 - 16384
  {
  }

  /** The offset compensation of one sample: the next L_z2.  Each declared type is a proof that
      the C variable of that type loses nothing. */
  function NextZ2(st: PreState, so: word): (lz2: longword)
    requires Inv(st) && -0x4000 <= so <= 0x3FFC
  {
    var s1: word := so - st.z1;
    var ls2: longword := s1 * 0x8000;
    var msp: word := st.lz2 / 0x8000;
    var lsp: word := st.lz2 - msp * 0x8000;
    TimesIsProduct(lsp, 32735);
    var ls2': longword := ls2 + MultR(lsp, 32735);
    var ltemp: longword := msp * 32735;
    LAddMacro(ltemp, ls2')
  }

  /** The filter is the recursion y' = (32735/32768) y + (so - z1) * 2^15, rounded to nearest:
      the addition does not saturate and the split multiplication costs at most half a unit. */
  lemma NextZ2IsRounded(st: PreState, so: word)
    requires Inv(st) && -0x4000 <= so <= 0x3FFC
    ensures var exact := 32735 * st.lz2 + 0x8000 * 0x8000 * (so - st.z1);
            -0x4000 <= exact - 0x8000 * NextZ2(st, so) < 0x4000
  {
    var msp: word := st.lz2 / 0x8000;
    var lsp: word := st.lz2 - msp * 0x8000;
    MultRValue(lsp, 32735);
    var product: int := MultR(lsp, 32735);
    var sum := msp * 32735 + (so - st.z1) * 0x8000 + product;
    assert -0x4000 <= lsp * 32735 - 0x8000 * product < 0x4000;
    assert MIN_LONGWORD <= sum <= MAX_LONGWORD;
    assert NextZ2(st, so) == sum;
  }

  /** One sample through the whole section: new state and output. */
  function Step(st: PreState, s: word): (r: (PreState, word))
    requires Inv(st)
    ensures Inv(r.0)
  {
    var so := Downscaled(s);
    var lz2 := NextZ2(st, so);
    NextZ2IsRounded(st, so);
    StateBound(PreState(so, lz2, 0));
    var ltemp: longword := LAddMacro(lz2, 16384);
    var msp := MultR(st.mp, -28180);
    var mp: word := ltemp / 0x8000;
    (PreState(so, lz2, mp), Add(mp, msp))
  }

  /** The invariant is kept because the average is convex: its new value lies between the old
      average and the previous input, up to one half. */
  lemma AverageIsConvex(st: PreState, s: word)
    requires Inv(st)
    ensures var st' := Step(st, s).0;
            var convex := 32735 * Average(st) + 33 * (st.z1 * 0x8000);
            -0x4000 <= 0x8000 * Average(st') - convex < 0x4000
  {
    var so := Downscaled(s);
    NextZ2IsRounded(st, so);
    ConvexAlgebra(st.z1, st.lz2, so, NextZ2(st, so));
  }

  lemma ConvexAlgebra(z1: int, y: int, so: int, y': int)
    requires -0x4000 <= 32735 * y + 0x8000 * 0x8000 * (so - z1) - 0x8000 * y' < 0x4000
    ensures var convex := 32735 * (z1 * 0x8000 - y) + 33 * (z1 * 0x8000);
            -0x4000 <= 0x8000 * (so * 0x8000 - y') - convex < 0x4000
  {
  }

  // ---------------------------------------------------------------- runs

  function Run(st: PreState, s: seq<word>): (r: (PreState, seq<word>))
    requires Inv(st)
    ensures Inv(r.0) && |r.1| == |s|
    decreases |s|
  {
    if s == [] then (st, []) else
      var (st', x) := Step(st, s[0]);
      var (st'', xs) := Run(st', s[1..]);
      (st'', [x] + xs)
  }

  /** For every input from the initial state the filter state stays below 2^30, so that neither
      its 16-bit halves nor the saturating additions ever lose anything. */
  lemma NeverSaturates(s: seq<word>)
    ensures Inv(INITIAL)
    ensures -0x4000_0000 < Run(INITIAL, s).0.lz2 < 0x4000_0000 - 16384
  {
    StateBound(Run(INITIAL, s).0);
  }

  function Magnitude(x: int): nat {
    if x < 0 then -x else x
  }

  /** While the input stays constant the filter state shrinks, until rounding stops it. */
  lemma ConstantInputShrinks(st: PreState, s: word)
    requires Inv(st) && st.z1 == Downscaled(s)
    ensures var (st', _) := Step(st, s);
            st'.z1 == st.z1 && Magnitude(st'.lz2) <= Magnitude(st.lz2) &&
            (Magnitude(st.lz2) > 496 ==> Magnitude(st'.lz2) < Magnitude(st.lz2))
  {
    NextZ2IsRounded(st, Downscaled(s));
  }

  /** Once the input is constant, the filter output `mp` becomes and stays zero. */
  lemma {:induction false} ConstantInputIsRemoved(st: PreState, s: word, n: nat, budget: nat)
    requires Inv(st) && st.z1 == Downscaled(s)
    requires Magnitude(st.lz2) <= 496 + budget && n > budget
    ensures Run(st, seq(n, _ => s)).0.mp == 0
    decreases n
  {
    var signal := seq(n, _ => s);
    var (st', _) := Step(st, s);
    ConstantInputShrinks(st, s);
    assert signal[1..] == seq(n - 1, _ => s);
    if n > 1 {
      ConstantInputIsRemoved(st', s, n - 1, if budget == 0 then 0 else budget - 1);
    } else {
      assert Run(st', []) == (st', []);
    }
  }

  /** A state above 1024 m shrinks by m a sample, and so is halved within 1024 samples. */
  lemma ShrinksBy(st: PreState, s: word, m: nat)
    requires Inv(st) && st.z1 == Downscaled(s) && Magnitude(st.lz2) > 1024 * m
    ensures Magnitude(Step(st, s).0.lz2) <= Magnitude(st.lz2) - m
  {
    NextZ2IsRounded(st, Downscaled(s));
  }

  lemma {:induction false} RemovedWithin(st: PreState, s: word, n: nat, m: nat, e: nat, j: nat)
    requires Inv(st) && st.z1 == Downscaled(s)
    requires m == Pow2(e) && Magnitude(st.lz2) <= 1024 * m + Times(j, m) && n > j + 1024 * e + 528
    ensures Run(st, seq(n, _ => s)).0.mp == 0
    decreases n, m
  {
    hide Step, Run, Pow2, Inv, Times;
    TimesIsProduct(0, m);
    if j > 0 {
      ConstantInputShrinks(st, s);
      if Magnitude(st.lz2) > 1024 * m {
        ShrinksBy(st, s, m);
      }
      OneLess(j, m);
      RemovedWithin(Step(st, s).0, s, n - 1, m, e, j - 1);
      FirstOfConstant(st, s, n);
    } else if e > 0 {
      var h := Pow2(e - 1);
      Halved(e);
      TimesIsProduct(1024, h);
      RemovedWithin(st, s, n, h, e - 1, 1024);
    } else {
      Pow2Values();
      ConstantInputIsRemoved(st, s, n, 528);
    }
  }

  lemma OneLess(j: nat, m: nat)
    requires j > 0
    ensures 0 <= Times(j - 1, m) == Times(j, m) - m
  {
    TimesIsProduct(j, m);
    TimesIsProduct(j - 1, m);
  }

  lemma Halved(e: nat)
    requires e > 0
    ensures Pow2(e) == 2 * Pow2(e - 1)
  {
  }

  lemma FirstOfConstant(st: PreState, s: word, n: nat)
    requires Inv(st) && n > 0
    ensures Run(st, seq(n, _ => s)).0 == Run(Step(st, s).0, seq(n - 1, _ => s)).0
  {
    hide Step;
    assert seq(n, _ => s)[1..] == seq(n - 1, _ => s);
  }

  /** The offset is compensated: under constant input the filter output is zero from every reachable
      state within 21010 samples, less than three seconds of sound. */
  lemma OffsetIsRemoved(st: PreState, s: word, n: nat)
    requires Inv(st) && n >= 21010
    ensures Run(st, seq(n, _ => s)).0.mp == 0
  {
    var st' := Step(st, s).0;
    StateBound(st');
    Pow2Values();
    Pow2Add(10, 10);
    hide Step, Pow2, Run, Times;
    TimesIsProduct(0, Pow2(20));
    RemovedWithin(st', s, n - 1, Pow2(20), 20, 0);
    FirstOfConstant(st, s, n);
  }

  // ---------------------------------------------------------------- pre-emphasis and de-emphasis

  /** Pre-emphasis scales by -28180 and de-emphasis by 28180.  The two roundings cancel exactly
      unless the product lies half-way between two units. */
  lemma EmphasisRoundingCancels(x: word)
    ensures MultR(x, -28180) + MultR(x, 28180) == 0 <==> x % 8192 != 4096
  {
    MultRValue(x, -28180);
    MultRValue(x, 28180);
    var p: int := x * 28180;
    assert x * -28180 == -p;
    RoundingsCancel(p);
    var q, r := x / 8192, x % 8192;
    assert p == 0x8000 * (7045 * q) + r * 28180;
    SameRemainder(p, 7045 * q, r * 28180);
    HalfWay(r);
  }

  lemma RoundingsCancel(p: int)
    ensures (p + 16384) / 0x8000 + (-p + 16384) / 0x8000 == 0 <==> p % 0x8000 != 16384
  {
  }

  lemma SameRemainder(p: int, k: int, y: nat)
    requires p == 0x8000 * k + y
    ensures p % 0x8000 == y % 0x8000
  {
    DivUnique(p, 0x8000, k + y / 0x8000, y % 0x8000);
  }

  lemma HalfWay(r: nat)
    requires r < 8192
    ensures (r * 28180) % 0x8000 == 16384 <==> r == 4096
  {
    // 28180 == 4 * 7045
    var m := r * 7045;
    var k := m / 8192;
    assert (r * 28180) % 0x8000 == 4 * (m % 8192) by {
      DivUnique(r * 28180, 0x8000, k, 4 * (m % 8192));
    }
    if m % 8192 == 4096 {
      OddFactor(r, k);
    }
  }

  /** 1357 is the inverse of 7045 modulo 8192. */
  lemma OddFactor(r: nat, k: nat)
    requires r < 8192 && r * 7045 == 8192 * k + 4096
    ensures r == 4096
  {
    assert r == 8192 * (1357 * k + 678 - 1167 * r) + 4096;
  }

  // ---------------------------------------------------------------- the procedure

  /** The body of the loop of Gsm_Preprocess. */
  method ProcessSample(st: PreState, s: word) returns (st': PreState, x: word)
    requires Inv(st)
    ensures (st', x) == Step(st, s)
  {
    var SO: word := s / 8 * 4;
    var s1: word := SO - st.z1;
    var ls2: longword := s1 * 0x8000;
    var msp: word := st.lz2 / 0x8000;
    var lsp: word := st.lz2 - msp * 0x8000;
    TimesIsProduct(lsp, 32735);
    ls2 := ls2 + MultR(lsp, 32735);
    var ltemp: longword := msp * 32735;
    var lz2 := LAddMacro(ltemp, ls2);
    assert lz2 == NextZ2(st, SO);
    ltemp := LAddMacro(lz2, 16384);
    msp := MultR(st.mp, -28180);
    NextZ2IsRounded(st, SO);
    StateBound(PreState(SO, lz2, 0));
    var mp: word := ltemp / 0x8000;
    x := Add(mp, msp);
    st' := PreState(SO, lz2, mp);
  }

  /** Gsm_Preprocess: the state is held in locals during the loop and handed back. */
  method Process(st: PreState, s: array<word>, so: array<word>) returns (st': PreState)
    requires Inv(st) && s.Length == so.Length == 160 && s != so
    modifies so
    ensures Inv(st') && (st', so[..]) == old(Run(st, s[..]))
  {
    ghost var all, s0 := Run(st, s[..]), s[..];
    st' := st;
    assert s0[0..] == s0 && so[..0] + all.1 == all.1;
    for k := 0 to 160
      invariant s[..] == s0 && Inv(st')
      invariant var rest := Run(st', s0[k..]);
                all == (rest.0, so[..k] + rest.1)
    {
      ghost var done := so[..k];
      RunStep(st', s0, k, done);
      var x;
      st', x := ProcessSample(st', s[k]);
      so[k] := x;
      assert so[..k + 1] == done + [x];
    }
    assert s0[160..] == [] && so[..160] + [] == so[..];
  }

  lemma RunStep(st: PreState, s: seq<word>, k: nat, done: seq<word>)
    requires Inv(st) && k < |s|
    ensures var rest := Run(st, s[k..]);
            var (st', x) := Step(st, s[k]);
            var next := Run(st', s[k + 1..]);
            (rest.0, done + rest.1) == (next.0, (done + [x]) + next.1)
  {
    assert s[k..][1..] == s[k + 1..];
    var (st', x) := Step(st, s[k]);
    var next := Run(st', s[k + 1..]);
    assert done + ([x] + next.1) == (done + [x]) + next.1;
  }
}
