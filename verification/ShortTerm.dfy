/** Short-term analysis and synthesis filtering (gsm/src/short_term.c).

  The encoder's lattice filter and the decoder's lattice filter round and saturate at every
  stage.  The main results say that they are nevertheless exact inverses of each other as long as no
  addition on the forward path saturates: over samples, over the four segments of a frame and over
  whole runs of frames.  Where one does saturate, Loss says whether the sample still comes back. */
module ShortTerm {
  import opened Words

  /** A reflection coefficient: any word but MIN_WORD. */
  type coef = x: int | -MAX_WORD <= x <= MAX_WORD

  // ---------------------------------------------------------------- 4.2.8 decoding of the LARs

  const B: seq<word> := [0, 0, 2048, -2560, 94, -1792, -341, -1144]
  const MIC: seq<word> := [-32, -32, -16, -16, -8, -8, -4, -4]
  const MAC: seq<word> := [31, 31, 15, 15, 7, 7, 3, 3]
  const INVA: seq<word> := [13107, 13107, 13107, 13107, 19223, 17476, 31454, 29708]

  function DecodeLar(larc: word, i: nat): (larpp: word)
    requires i < 8
  {
    var temp1 := ToWord(Add(larc, MIC[i]) * 1024);
    var temp2 := Sub(temp1, B[i] * 2);
    var temp3 := MultR(INVA[i], temp2);
    Add(temp3, temp3)
  }

  /** For every code the bit stream can carry, the shift by ten loses no bits. */
  lemma DecodeLarShiftIsExact(larc: word, i: nat)
    requires i < 8 && 0 <= larc <= MAC[i] - MIC[i]
    ensures ToWord(Add(larc, MIC[i]) * 1024) == (larc + MIC[i]) * 1024
  {
    assert i == 0 || i == 1 || i == 2 || i == 3 || i == 4 || i == 5 || i == 6 || i == 7;
  }

  function DecodeLars(larc: seq<word>): (larpp: seq<word>)
    requires |larc| == 8
    ensures |larpp| == 8
  {
    seq(8, i requires 0 <= i < 8 => DecodeLar(larc[i], i))
  }

  // ---------------------------------------------------------------- 4.2.9 interpolation

  /** Interpolated log-area ratio of segment 0 (samples 0..12), 1 (13..26), 2 (27..39) or
      3 (40..159). */
  function Interpolated(prev: word, cur: word, segment: nat): (larp: word)
    requires segment < 4
  {
    match segment
    case 0 => Add(Add(prev / 4, cur / 4), prev / 2)
    case 1 => Add(prev / 2, cur / 2)
    case 2 => Add(Add(prev / 4, cur / 4), cur / 2)
    case 3 => cur
  }

  /** The weights: the previous frame's ratio counts three quarters, a half, a quarter and nothing in
      the four segments, the current one the rest, up to two units of rounding. */
  lemma InterpolatedWeights(prev: word, cur: word, k: nat)
    requires k < 4
    ensures (3 - k) * prev + (k + 1) * cur - 8 <= 4 * Interpolated(prev, cur, k) <= (3 - k) * prev + (k + 1) * cur
  {
    assert k == 0 || k == 1 || k == 2 || k == 3;
  }

  /** LARp_to_rp for one coefficient. */
  function LarpToRp(larp: word): (rp: coef)
    ensures rp != MIN_WORD
    ensures larp >= 0 ==> rp >= 0
    ensures larp <= 0 ==> rp <= 0
  {
    if larp < 0 then
      var temp: word := if larp == MIN_WORD then MAX_WORD else -larp;
      -Expand(temp)
    else
      Expand(larp)
  }

  function Expand(temp: word): (r: word)
    requires temp >= 0
    ensures 0 <= r <= MAX_WORD
  {
    if temp < 11059 then temp * 2
    else if temp < 20070 then temp + 11059
    else Add(temp / 4, 26112)
  }

  /** The piecewise-linear map is increasing, so its three pieces join without a fold. */
  lemma LarpToRpIncreases(a: word, b: word)
    requires a <= b
    ensures LarpToRp(a) <= LarpToRp(b)
  {
    if a < 0 <= b {
    } else if b < 0 {
      assert LarpToRp(a) == -Expand(if a == MIN_WORD then MAX_WORD else -a);
    }
  }

  /** The eight coefficients of a segment, and the four sets of a frame. */
  type CoefSet = c: seq<coef> | |c| == 8 witness seq(8, _ => 0)
  const NO_COEFS: CoefSet := [0, 0, 0, 0, 0, 0, 0, 0]
  type CoefSets = c: seq<CoefSet> | |c| == 4 witness [NO_COEFS, NO_COEFS, NO_COEFS, NO_COEFS]

  function Coefs(prev: seq<word>, cur: seq<word>, segment: nat): (rp: CoefSet)
    requires |prev| == |cur| == 8 && segment < 4
  {
    seq(8, i requires 0 <= i < 8 => LarpToRp(Interpolated(prev[i], cur[i], segment)))
  }

  // ---------------------------------------------------------------- 4.2.10 the lattice stages

  /** Stages `i`.. of the analysis lattice: `di` runs along the forward path, `sav` is the value
      stage `i` has to remember.  Returns the new memory u[i..] and the residual. */
  function Analyse(rp: seq<coef>, u: seq<word>, i: nat, di: word, sav: word): (r: (seq<word>, word))
    requires i <= |rp| == |u|
    ensures |r.0| == |u| - i
    decreases |u| - i
  {
    if i == |u| then ([], di) else
      var (memory, residual) := Analyse(rp, u, i + 1, Add(di, MultR(rp[i], u[i])), Add(u[i], MultR(rp[i], di)));
      ([sav] + memory, residual)
  }

  /** Stages |v|-1 down to `i` of the synthesis lattice.  Returns the new memory v[i+1..] and the
      value that leaves stage `i`. */
  function Synthesise(rp: seq<coef>, v: seq<word>, i: nat, sri: word): (r: (seq<word>, word))
    requires i <= |rp| == |v|
    ensures |r.0| == |v| - i
    decreases |v| - i
  {
    if i == |v| then ([], sri) else
      var (memory, x) := Synthesise(rp, v, i + 1, sri);
      var y := Sub(x, GsmMultR(rp[i], v[i]));
      ([Add(v[i], GsmMultR(rp[i], y))] + memory, y)
  }

  /** No addition on the forward path of the analysis saturates, from stage `i` on. */
  predicate Unclipped(rp: seq<coef>, u: seq<word>, i: nat, di: word)
    requires i <= |rp| == |u|
    decreases |u| - i
  {
    i == |u| ||
    (MIN_WORD <= di + MultR(rp[i], u[i]) <= MAX_WORD &&
     Unclipped(rp, u, i + 1, Add(di, MultR(rp[i], u[i]))))
  }

  /** Everything the forward path of the analysis carries, from stage `i` on. */
  ghost function ForwardPath(rp: seq<coef>, u: seq<word>, i: nat, di: word): (path: seq<word>)
    requires i <= |rp| == |u|
    ensures |path| == |u| - i + 1 && path[0] == di
    decreases |u| - i
  {
    if i == |u| then [di] else [di] + ForwardPath(rp, u, i + 1, Add(di, MultR(rp[i], u[i])))
  }

  /** Everything the synthesis lattice computes from `sri`, down to stage `i`. */
  ghost function ReturnPath(rp: seq<coef>, v: seq<word>, i: nat, sri: word): (path: seq<word>)
    requires i <= |rp| == |v|
    ensures |path| == |v| - i + 1 && path[0] == Synthesise(rp, v, i, sri).1
    decreases |v| - i
  {
    if i == |v| then [sri] else
      var rest := ReturnPath(rp, v, i + 1, sri);
      [Sub(rest[0], GsmMultR(rp[i], v[i]))] + rest
  }

  /** Taking back one stage recovers its input exactly when the addition did not saturate. */
  lemma StageInverse(di: word, z: word)
    ensures Sub(Add(di, z), z) == di <==> MIN_WORD <= di + z <= MAX_WORD
  {
  }

  /** The synthesis lattice walks the forward path of the analysis back, value by value, if and
      only if none of the additions on it saturated. */
  lemma {:induction false} PathsAgree(rp: seq<coef>, u: seq<word>, i: nat, di: word, sav: word)
    requires i <= |rp| == |u|
    ensures ReturnPath(rp, u, i, Analyse(rp, u, i, di, sav).1) == ForwardPath(rp, u, i, di)
            <==> Unclipped(rp, u, i, di)
    decreases |u| - i
  {
    hide MultR, GsmMultR, Add, Sub;
    if i < |u| {
      var z := MultR(rp[i], u[i]);
      var di', sav' := Add(di, z), Add(u[i], MultR(rp[i], di));
      var d := Analyse(rp, u, i + 1, di', sav').1;
      var there, back := ForwardPath(rp, u, i + 1, di'), ReturnPath(rp, u, i + 1, d);
      PathsAgree(rp, u, i + 1, di', sav');
      StageInverse(di, z);
      var whole := ReturnPath(rp, u, i, d);
      assert whole[1..] == back && ForwardPath(rp, u, i, di)[1..] == there;
      if whole == ForwardPath(rp, u, i, di) {
        assert back == there && whole[0] == di;
      }
    }
  }

  /** One sample: without saturation on the forward path, synthesis from equal memories returns
      the sample, and the memories are equal again.  Saturation of the remembered values does no
      harm, because both sides compute them alike. */
  lemma {:induction false} LatticeInverse(rp: seq<coef>, u: seq<word>, i: nat, di: word, sav: word)
    requires i <= |rp| == |u| && Unclipped(rp, u, i, di)
    ensures var (memory, residual) := Analyse(rp, u, i, di, sav);
            var (tail, x) := Synthesise(rp, u, i, residual);
            x == di && ([sav] + tail)[..|u| - i] == memory
    decreases |u| - i
  {
    if i < |u| {
      var di', sav' := Add(di, MultR(rp[i], u[i])), Add(u[i], MultR(rp[i], di));
      LatticeInverse(rp, u, i + 1, di', sav');
      var (memory', residual) := Analyse(rp, u, i + 1, di', sav');
      var (tail', x') := Synthesise(rp, u, i + 1, residual);
      assert ([sav] + ([sav'] + tail'))[..|u| - i] == [sav] + ([sav'] + tail')[..|u| - i - 1];
    }
  }

  /** Whether the value `di` that enters stage `i` of the analysis comes back from the synthesis:
      zero if it does, negative if less comes back, positive if more.  This looks at the forward
      path only.  The first addition that saturates decides the direction; a difference from later
      stages disappears where it would have to go beyond the end of the scale. */
  function Loss(rp: seq<coef>, u: seq<word>, i: nat, di: word): (e: int)
    requires i <= |rp| == |u|
    ensures Unclipped(rp, u, i, di) ==> e == 0
    decreases |u| - i
  {
    if i == |u| then 0 else
      var t := di + MultR(rp[i], u[i]);
      if t > MAX_WORD then -1
      else if t < MIN_WORD then 1
      else
        var e := Loss(rp, u, i + 1, t);
        if (e < 0 && di == MIN_WORD) || (e > 0 && di == MAX_WORD) then 0 else e
  }

  /** For every order, coefficient set and memory, saturated or not. */
  lemma {:induction false} LossDecides(rp: seq<coef>, u: seq<word>, i: nat, di: word, sav: word)
    requires i <= |rp| == |u|
    ensures var x, e := Synthesise(rp, u, i, Analyse(rp, u, i, di, sav).1).1, Loss(rp, u, i, di);
            (x < di <==> e < 0) && (x == di <==> e == 0) && (x > di <==> e > 0)
    decreases |u| - i
  {
    hide MultR, GsmMultR;
    if i < |u| {
      LossDecides(rp, u, i + 1, Add(di, MultR(rp[i], u[i])), Add(u[i], MultR(rp[i], di)));
    }
  }

  /** What the analysis loses, no other residual would have kept. */
  lemma {:induction false} LossIsFinal(rp: seq<coef>, u: seq<word>, i: nat, di: word, residual: word)
    requires i <= |rp| == |u|
    ensures var x, e := Synthesise(rp, u, i, residual).1, Loss(rp, u, i, di);
            (e < 0 ==> x < di) && (e > 0 ==> x > di)
    decreases |u| - i
  {
    hide MultR, GsmMultR;
    if i < |u| {
      LossIsFinal(rp, u, i + 1, Add(di, MultR(rp[i], u[i])), residual);
    }
  }

  /** The exact condition for one sample: it comes back, or could come back from any residual at
      all, if and only if nothing is lost on the forward path. */
  lemma SampleReturnedIff(rp: seq<coef>, u: seq<word>, s: word)
    requires |rp| == |u|
    ensures Synthesise(rp, u, 0, Analyse(rp, u, 0, s, s).1).1 == s <==> Loss(rp, u, 0, s) == 0
    ensures (exists w: word :: Synthesise(rp, u, 0, w).1 == s) <==> Loss(rp, u, 0, s) == 0
  {
    LossDecides(rp, u, 0, s, s);
    forall w: word | Synthesise(rp, u, 0, w).1 == s
      ensures Loss(rp, u, 0, s) == 0
    {
      LossIsFinal(rp, u, 0, s, w);
    }
  }

  /** With one stage the sample comes back if and only if the addition did not saturate. */
  lemma OneStageExact(rp: seq<coef>, u: seq<word>, s: word)
    requires |rp| == |u| == 1
    ensures Synthesise(rp, u, 0, Analyse(rp, u, 0, s, s).1).1 == s <==> Unclipped(rp, u, 0, s)
  {
    LossDecides(rp, u, 0, s, s);
    assert Loss(rp, u, 1, Add(s, MultR(rp[0], u[0]))) == 0;
  }

  /** The condition is wider than "no saturation": a sample at the lower end of the scale whose third
      addition is the first to saturate is not lost, because the way back ends there again. */
  lemma ClippedYetReturned(rp: seq<coef>, u: seq<word>)
    requires |rp| == |u| >= 3
    requires var z0, z1, z2 := MultR(rp[0], u[0]), MultR(rp[1], u[1]), MultR(rp[2], u[2]);
             0 <= z0 && 0 <= z0 + z1 <= 65535 < z0 + z1 + z2
    ensures !Unclipped(rp, u, 0, MIN_WORD) && Loss(rp, u, 0, MIN_WORD) == 0
  {
    hide MultR;
    var t := MIN_WORD + MultR(rp[0], u[0]);
    var t' := t + MultR(rp[1], u[1]);
    assert Loss(rp, u, 2, t') == -1 && !Unclipped(rp, u, 2, t');
    assert !Unclipped(rp, u, 1, t);
  }

  // ---------------------------------------------------------------- signals of any length

  /** Analysis of a signal with one coefficient set: new memory u and residual signal. */
  function AnalyseSignal(rp: seq<coef>, u: seq<word>, s: seq<word>): (r: (seq<word>, seq<word>))
    requires |rp| == |u|
    ensures |r.0| == |u| && |r.1| == |s|
    decreases |s|
  {
    if s == [] then (u, []) else
      var (u', d) := Analyse(rp, u, 0, s[0], s[0]);
      var (u'', ds) := AnalyseSignal(rp, u', s[1..]);
      (u'', [d] + ds)
  }

  /** The memory v[0..7] after one sample. */
  function Remember(r: (seq<word>, word)): (v: seq<word>)
    requires |r.0| > 0
    ensures |v| == |r.0|
  {
    [r.1] + r.0[..|r.0| - 1]
  }

  function SynthesiseSignal(rp: seq<coef>, v: seq<word>, wt: seq<word>): (r: (seq<word>, seq<word>))
    requires |rp| == |v| > 0
    ensures |r.0| == |v| && |r.1| == |wt|
    decreases |wt|
  {
    if wt == [] then (v, []) else
      var r := Synthesise(rp, v, 0, wt[0]);
      var (v'', sr) := SynthesiseSignal(rp, Remember(r), wt[1..]);
      (v'', [r.1] + sr)
  }

  predicate UnclippedSignal(rp: seq<coef>, u: seq<word>, s: seq<word>)
    requires |rp| == |u|
    decreases |s|
  {
    s == [] ||
    (Unclipped(rp, u, 0, s[0]) && UnclippedSignal(rp, Analyse(rp, u, 0, s[0], s[0]).0, s[1..]))
  }

  lemma SampleInverse(rp: seq<coef>, u: seq<word>, x: word)
    requires |rp| == |u| > 0 && Unclipped(rp, u, 0, x)
    ensures var (u', d) := Analyse(rp, u, 0, x, x);
            Synthesise(rp, u, 0, d).1 == x && Remember(Synthesise(rp, u, 0, d)) == u'
  {
    LatticeInverse(rp, u, 0, x, x);
    var (u', d) := Analyse(rp, u, 0, x, x);
    var tail := Synthesise(rp, u, 0, d).0;
    assert ([x] + tail)[..|u|] == [x] + tail[..|u| - 1];
  }

  lemma {:induction false} SignalInverse(rp: seq<coef>, u: seq<word>, s: seq<word>)
    requires |rp| == |u| > 0 && UnclippedSignal(rp, u, s)
    ensures var (u', d) := AnalyseSignal(rp, u, s);
            SynthesiseSignal(rp, u, d) == (u', s)
    decreases |s|
  {
    if s != [] {
      SampleInverse(rp, u, s[0]);
      var (u1, d0) := Analyse(rp, u, 0, s[0], s[0]);
      SignalInverse(rp, u1, s[1..]);
      var (u2, ds) := AnalyseSignal(rp, u1, s[1..]);
      SynthesiseCons(rp, u, d0, ds);
      assert [s[0]] + s[1..] == s;
    }
  }

  lemma SynthesiseCons(rp: seq<coef>, v: seq<word>, d: word, ds: seq<word>)
    requires |rp| == |v| > 0
    ensures var r := Synthesise(rp, v, 0, d);
            var (v'', sr) := SynthesiseSignal(rp, Remember(r), ds);
            SynthesiseSignal(rp, v, [d] + ds) == (v'', [r.1] + sr)
  {
    assert ([d] + ds)[1..] == ds;
  }

  /** Sample by sample, the synthesis lattice started from memory `v` walks back everything the
      analysis lattice, started from `u`, carried forward. */
  ghost predicate Retraces(rp: seq<coef>, u: seq<word>, v: seq<word>, s: seq<word>)
    requires |rp| == |u| == |v| > 0
    decreases |s|
  {
    s == [] ||
    (var (u', d) := Analyse(rp, u, 0, s[0], s[0]);
     ReturnPath(rp, v, 0, d) == ForwardPath(rp, u, 0, s[0]) &&
     Retraces(rp, u', Remember(Synthesise(rp, v, 0, d)), s[1..]))
  }

  /** The inversion is exact for precisely the signals that nowhere saturate. */
  lemma {:induction false} SignalRetracedIff(rp: seq<coef>, u: seq<word>, s: seq<word>)
    requires |rp| == |u| > 0
    ensures Retraces(rp, u, u, s) <==> UnclippedSignal(rp, u, s)
    decreases |s|
  {
    if s != [] {
      PathsAgree(rp, u, 0, s[0], s[0]);
      if Unclipped(rp, u, 0, s[0]) {
        SampleInverse(rp, u, s[0]);
        SignalRetracedIff(rp, Analyse(rp, u, 0, s[0], s[0]).0, s[1..]);
      }
    }
  }

  /** The first sample with a saturating addition on its forward path, and its loss; the length of
      the signal and 0 if there is none. */
  function SignalLoss(rp: seq<coef>, u: seq<word>, s: seq<word>): (r: (nat, int))
    requires |rp| == |u|
    ensures r.0 <= |s| && (r.0 == |s| <==> UnclippedSignal(rp, u, s)) && (r.0 == |s| ==> r.1 == 0)
    decreases |s|
  {
    if s == [] then (0, 0)
    else if !Unclipped(rp, u, 0, s[0]) then (0, Loss(rp, u, 0, s[0]))
    else
      var (k, e) := SignalLoss(rp, Analyse(rp, u, 0, s[0], s[0]).0, s[1..]);
      (k + 1, e)
  }

  /** `t` has the samples of `s` before index `k`, and at `k` one that is less, equal or more as
      the sign of `e` says. */
  predicate Departs(s: seq<word>, t: seq<word>, k: nat, e: int)
    requires |s| == |t|
  {
    k <= |s| && t[..k] == s[..k] &&
    (k < |s| ==> (t[k] < s[k] <==> e < 0) && (t[k] == s[k] <==> e == 0) && (t[k] > s[k] <==> e > 0))
  }

  /** A whole signal, up to and including the first sample that saturates. */
  lemma {:induction false} SignalDeparts(rp: seq<coef>, u: seq<word>, s: seq<word>)
    requires |rp| == |u| > 0
    ensures var (k, e) := SignalLoss(rp, u, s);
            Departs(s, SynthesiseSignal(rp, u, AnalyseSignal(rp, u, s).1).1, k, e)
    decreases |s|
  {
    hide Loss, Unclipped;
    if s != [] {
      var (u1, d0) := Analyse(rp, u, 0, s[0], s[0]);
      var ds := AnalyseSignal(rp, u1, s[1..]).1;
      SynthesiseCons(rp, u, d0, ds);
      LossDecides(rp, u, 0, s[0], s[0]);
      if Unclipped(rp, u, 0, s[0]) {
        SampleInverse(rp, u, s[0]);
        SignalDeparts(rp, u1, s[1..]);
        DepartsLater([s[0]], s[1..], SynthesiseSignal(rp, u1, ds).1, SignalLoss(rp, u1, s[1..]).0,
                     SignalLoss(rp, u1, s[1..]).1);
        assert [s[0]] + s[1..] == s;
      }
    }
  }

  lemma DepartsLater(a: seq<word>, s: seq<word>, t: seq<word>, k: nat, e: int)
    requires |s| == |t| && Departs(s, t, k, e)
    ensures Departs(a + s, a + t, |a| + k, e)
  {
    assert (a + t)[..|a| + k] == a + t[..k] == a + s[..k] == (a + s)[..|a| + k];
  }

  // ---------------------------------------------------------------- frames

  /** The double-buffered decoded LARs: LARpp[j] is written next, LARpp[j^1] holds the previous
      frame's values. */
  datatype LarMemory = LarMemory(larpp: seq<seq<word>>, j: nat) {
    ghost predicate Valid() {
      j < 2 && |larpp| == 2 && |larpp[0]| == 8 && |larpp[1]| == 8
    }

    function Next(larc: seq<word>): (m: LarMemory)
      requires Valid() && |larc| == 8
      ensures m.Valid()
    {
      LarMemory(larpp[j := DecodeLars(larc)], 1 - j)
    }

    /** Coefficients of the four segments of the frame whose codes were stored last. */
    function FrameCoefs(): (rp: CoefSets)
      requires Valid()
    {
      seq(4, k requires 0 <= k < 4 => Coefs(larpp[j], larpp[1 - j], k))
    }
  }

  /** After a frame, the buffer that will be read as "previous" holds that frame's LARs: the
      buffers behave like one variable holding the previous frame. */
  lemma BufferFlip(m: LarMemory, first: seq<word>, second: seq<word>)
    requires m.Valid() && |first| == |second| == 8
    ensures var m1 := m.Next(first);
            m1.larpp[1 - m1.j] == DecodeLars(first) &&
            m1.Next(second).FrameCoefs()[0] == Coefs(DecodeLars(first), DecodeLars(second), 0) &&
            m1.Next(second).j == m.j
  {
  }

  /** And segment k of that frame is filtered with the weighted mean of the two frames' ratios. */
  lemma FrameWeights(m: LarMemory, larc: seq<word>, k: nat, i: nat)
    requires m.Valid() && |larc| == 8 && k < 4 && i < 8
    ensures var prev, cur := m.larpp[1 - m.j][i], DecodeLar(larc[i], i);
            exists larp: word :: m.Next(larc).FrameCoefs()[k][i] == LarpToRp(larp) &&
              (3 - k) * prev + (k + 1) * cur - 8 <= 4 * larp <= (3 - k) * prev + (k + 1) * cur
  {
    var m1 := m.Next(larc);
    var prev, cur := m.larpp[1 - m.j][i], DecodeLar(larc[i], i);
    InterpolatedWeights(prev, cur, k);
    assert m1.larpp[m1.j][i] == prev && m1.larpp[1 - m1.j][i] == cur;
    hide Interpolated, LarpToRp, DecodeLar;
    assert m1.FrameCoefs()[k][i] == LarpToRp(Interpolated(prev, cur, k));
  }

  /** First sample of each segment of the frame, and the end of the frame. */
  function Start(k: nat): (n: nat)
    requires k <= 4
    ensures n <= 160
  {
    match k
    case 0 => 0
    case 1 => 13
    case 2 => 27
    case 3 => 40
    case 4 => 160
  }

  /** Segments `k`.. of one frame, analysed with their own coefficients. */
  function AnalyseFrom(c: CoefSets, k: nat, u: seq<word>, s: seq<word>): (r: (seq<word>, seq<word>))
    requires k <= 4 && |u| == 8 && |s| == 160 - Start(k)
    ensures |r.0| == 8 && |r.1| == |s|
    decreases |s|
  {
    if k == 4 then (u, []) else
      var n := Start(k + 1) - Start(k);
      var (u', d) := AnalyseSignal(c[k], u, s[..n]);
      var (u'', ds) := AnalyseFrom(c, k + 1, u', s[n..]);
      (u'', d + ds)
  }

  function SynthesiseFrom(c: CoefSets, k: nat, v: seq<word>, wt: seq<word>): (r: (seq<word>, seq<word>))
    requires k <= 4 && |v| == 8 && |wt| == 160 - Start(k)
    ensures |r.0| == 8 && |r.1| == |wt|
    decreases |wt|
  {
    if k == 4 then (v, []) else
      var n := Start(k + 1) - Start(k);
      var (v', s) := SynthesiseSignal(c[k], v, wt[..n]);
      var (v'', ss) := SynthesiseFrom(c, k + 1, v', wt[n..]);
      (v'', s + ss)
  }

  /** The segment of a sample: 0..12, 13..26, 27..39 and 40..159. */
  function SegmentOf(t: nat): (k: nat)
    ensures k < 4
  {
    if t <= 12 then 0 else if t <= 26 then 1 else if t <= 39 then 2 else 3
  }

  /** Samples t.. of a frame, one by one, each with the coefficients of its own segment. */
  function AnalyseEach(c: CoefSets, t: nat, u: seq<word>, s: seq<word>): (r: (seq<word>, seq<word>))
    requires |u| == 8
    ensures |r.0| == 8 && |r.1| == |s|
    decreases |s|
  {
    if s == [] then (u, []) else
      var (u', d) := Analyse(c[SegmentOf(t)], u, 0, s[0], s[0]);
      var (u'', ds) := AnalyseEach(c, t + 1, u', s[1..]);
      (u'', [d] + ds)
  }

  function SynthesiseEach(c: CoefSets, t: nat, v: seq<word>, wt: seq<word>): (r: (seq<word>, seq<word>))
    requires |v| == 8
    ensures |r.0| == 8 && |r.1| == |wt|
    decreases |wt|
  {
    if wt == [] then (v, []) else
      var r := Synthesise(c[SegmentOf(t)], v, 0, wt[0]);
      var (v'', sr) := SynthesiseEach(c, t + 1, Remember(r), wt[1..]);
      (v'', [r.1] + sr)
  }

  /** A stretch inside one segment. */
  lemma {:induction false} AnalysedInSegment(c: CoefSets, k: nat, t: nat, u: seq<word>, a: seq<word>, b: seq<word>)
    requires k < 4 && |u| == 8 && Start(k) <= t && t + |a| <= Start(k + 1)
    ensures var (u', d) := AnalyseSignal(c[k], u, a);
            var (u'', ds) := AnalyseEach(c, t + |a|, u', b);
            AnalyseEach(c, t, u, a + b) == (u'', d + ds)
    decreases |a|
  {
    hide Analyse;
    if a == [] {
      assert a + b == b;
      assert [] + AnalyseEach(c, t, u, b).1 == AnalyseEach(c, t, u, b).1;
    } else {
      assert SegmentOf(t) == k && (a + b)[1..] == a[1..] + b;
      var (u1, d0) := Analyse(c[k], u, 0, a[0], a[0]);
      AnalysedInSegment(c, k, t + 1, u1, a[1..], b);
      var (u', d) := AnalyseSignal(c[k], u1, a[1..]);
      var ds := AnalyseEach(c, t + |a|, u', b).1;
      assert [d0] + (d + ds) == ([d0] + d) + ds;
    }
  }

  lemma {:induction false} SynthesisedInSegment(c: CoefSets, k: nat, t: nat, v: seq<word>, a: seq<word>, b: seq<word>)
    requires k < 4 && |v| == 8 && Start(k) <= t && t + |a| <= Start(k + 1)
    ensures var (v', s) := SynthesiseSignal(c[k], v, a);
            var (v'', ss) := SynthesiseEach(c, t + |a|, v', b);
            SynthesiseEach(c, t, v, a + b) == (v'', s + ss)
    decreases |a|
  {
    hide Synthesise, Remember;
    if a == [] {
      assert a + b == b;
      assert [] + SynthesiseEach(c, t, v, b).1 == SynthesiseEach(c, t, v, b).1;
    } else {
      assert SegmentOf(t) == k && (a + b)[1..] == a[1..] + b;
      var r := Synthesise(c[k], v, 0, a[0]);
      SynthesisedInSegment(c, k, t + 1, Remember(r), a[1..], b);
      var (v', s) := SynthesiseSignal(c[k], Remember(r), a[1..]);
      var ss := SynthesiseEach(c, t + |a|, v', b).1;
      assert [r.1] + (s + ss) == ([r.1] + s) + ss;
    }
  }

  /** The four segments of a frame are its samples 0..12, 13..26, 27..39 and 40..159, in the
      analysis filter and in the synthesis filter. */
  lemma {:induction false} AnalysisSegments(c: CoefSets, k: nat, u: seq<word>, s: seq<word>)
    requires k <= 4 && |u| == 8 && |s| == 160 - Start(k)
    ensures AnalyseFrom(c, k, u, s) == AnalyseEach(c, Start(k), u, s)
    decreases 4 - k
  {
    hide AnalyseSignal;
    if k < 4 {
      var n := Start(k + 1) - Start(k);
      AnalysedInSegment(c, k, Start(k), u, s[..n], s[n..]);
      assert s == s[..n] + s[n..];
      AnalysisSegments(c, k + 1, AnalyseSignal(c[k], u, s[..n]).0, s[n..]);
    }
  }

  lemma {:induction false} SynthesisSegments(c: CoefSets, k: nat, v: seq<word>, wt: seq<word>)
    requires k <= 4 && |v| == 8 && |wt| == 160 - Start(k)
    ensures SynthesiseFrom(c, k, v, wt) == SynthesiseEach(c, Start(k), v, wt)
    decreases 4 - k
  {
    hide SynthesiseSignal;
    if k < 4 {
      var n := Start(k + 1) - Start(k);
      SynthesisedInSegment(c, k, Start(k), v, wt[..n], wt[n..]);
      assert wt == wt[..n] + wt[n..];
      SynthesisSegments(c, k + 1, SynthesiseSignal(c[k], v, wt[..n]).0, wt[n..]);
    }
  }

  predicate UnclippedFrom(c: CoefSets, k: nat, u: seq<word>, s: seq<word>)
    requires k <= 4 && |u| == 8 && |s| == 160 - Start(k)
    decreases |s|
  {
    k == 4 ||
    (var n := Start(k + 1) - Start(k);
     UnclippedSignal(c[k], u, s[..n]) &&
     UnclippedFrom(c, k + 1, AnalyseSignal(c[k], u, s[..n]).0, s[n..]))
  }

  lemma {:induction false} FrameInverse(c: CoefSets, k: nat, u: seq<word>, s: seq<word>)
    requires k <= 4 && |u| == 8 && |s| == 160 - Start(k)
    requires UnclippedFrom(c, k, u, s)
    ensures var (u', d) := AnalyseFrom(c, k, u, s);
            SynthesiseFrom(c, k, u, d) == (u', s)
    decreases 4 - k
  {
    hide AnalyseSignal, SynthesiseSignal, UnclippedSignal;
    if k < 4 {
      var n := Start(k + 1) - Start(k);
      var rp := c[k];
      SignalInverse(rp, u, s[..n]);
      var (u1, d1) := AnalyseSignal(rp, u, s[..n]);
      FrameInverse(c, k + 1, u1, s[n..]);
      var (u2, d2) := AnalyseFrom(c, k + 1, u1, s[n..]);
      SynthesiseSegment(c, k, u, d1, d2);
      assert s[..n] + s[n..] == s;
    }
  }

  /** The first saturating sample of a frame and its loss. */
  function FrameLoss(c: CoefSets, k: nat, u: seq<word>, s: seq<word>): (r: (nat, int))
    requires k <= 4 && |u| == 8 && |s| == 160 - Start(k)
    ensures r.0 <= |s| && (r.0 == |s| <==> UnclippedFrom(c, k, u, s)) && (r.0 == |s| ==> r.1 == 0)
    decreases |s|
  {
    if k == 4 then (0, 0) else
      var n := Start(k + 1) - Start(k);
      var (j, e) := SignalLoss(c[k], u, s[..n]);
      if j < n then (j, e) else
        var (j', e') := FrameLoss(c, k + 1, AnalyseSignal(c[k], u, s[..n]).0, s[n..]);
        (n + j', e')
  }

  lemma {:induction false} FrameDeparts(c: CoefSets, k: nat, u: seq<word>, s: seq<word>)
    requires k <= 4 && |u| == 8 && |s| == 160 - Start(k)
    ensures var (j, e) := FrameLoss(c, k, u, s);
            Departs(s, SynthesiseFrom(c, k, u, AnalyseFrom(c, k, u, s).1).1, j, e)
    decreases 4 - k
  {
    hide AnalyseSignal, SynthesiseSignal, UnclippedSignal, SignalLoss, Departs;
    if k == 4 {
      DepartsNowhere(s);
    } else {
      var n := Start(k + 1) - Start(k);
      var (u1, d1) := AnalyseSignal(c[k], u, s[..n]);
      var d2 := AnalyseFrom(c, k + 1, u1, s[n..]).1;
      var (v1, t1) := SynthesiseSignal(c[k], u, d1);
      var t2 := SynthesiseFrom(c, k + 1, v1, d2).1;
      SynthesiseSegment(c, k, u, d1, d2);
      SignalDeparts(c[k], u, s[..n]);
      assert s[..n] + s[n..] == s;
      var (j, e) := SignalLoss(c[k], u, s[..n]);
      if j < n {
        DepartsBefore(s[..n], t1, s[n..], t2, j, e);
      } else {
        SignalInverse(c[k], u, s[..n]);
        FrameDeparts(c, k + 1, u1, s[n..]);
        var (j', e') := FrameLoss(c, k + 1, u1, s[n..]);
        DepartsLater(s[..n], s[n..], t2, j', e');
      }
    }
  }

  lemma DepartsNowhere(s: seq<word>)
    ensures Departs(s, s, |s|, 0)
  {
  }

  lemma DepartsBefore(s: seq<word>, t: seq<word>, a: seq<word>, b: seq<word>, k: nat, e: int)
    requires |s| == |t| && |a| == |b| && Departs(s, t, k, e) && k < |s|
    ensures Departs(s + a, t + b, k, e)
  {
    assert (s + a)[..k] == s[..k] && (t + b)[..k] == t[..k];
  }

  lemma SynthesiseSegment(c: CoefSets, k: nat, v: seq<word>, d: seq<word>, ds: seq<word>)
    requires k < 4 && |v| == 8
    requires |d| == Start(k + 1) - Start(k) && |ds| == 160 - Start(k + 1)
    ensures var (v', s) := SynthesiseSignal(c[k], v, d);
            var (v'', ss) := SynthesiseFrom(c, k + 1, v', ds);
            SynthesiseFrom(c, k, v, d + ds) == (v'', s + ss)
  {
    assert (d + ds)[..|d|] == d && (d + ds)[|d|..] == ds;
  }

  type Lars = s: seq<word> | |s| == 8 witness seq(8, i => 0)
  type Samples = s: seq<word> | |s| == 160 witness seq(160, i => 0)

  /** A frame as the short-term filters see it: the coded LARs and 160 samples. */
  datatype Frame = Frame(larc: Lars, s: Samples)

  /** Gsm_Short_Term_Analysis_Filter over a run of frames: residuals and final state. */
  ghost function AnalyseRun(m: LarMemory, u: seq<word>, frames: seq<Frame>)
    : (r: (LarMemory, seq<word>, seq<Frame>))
    requires m.Valid() && |u| == 8
    ensures |r.1| == 8 && |r.2| == |frames|
    decreases |frames|
  {
    if frames == [] then (m, u, []) else
      var m' := m.Next(frames[0].larc);
      var (u', d) := AnalyseFrom(m'.FrameCoefs(), 0, u, frames[0].s);
      var (m'', u'', rest) := AnalyseRun(m', u', frames[1..]);
      (m'', u'', [Frame(frames[0].larc, d)] + rest)
  }

  /** Gsm_Short_Term_Synthesis_Filter over a run of frames. */
  ghost function SynthesiseRun(m: LarMemory, v: seq<word>, frames: seq<Frame>)
    : (r: (LarMemory, seq<word>, seq<Frame>))
    requires m.Valid() && |v| == 8
    ensures |r.2| == |frames|
    decreases |frames|
  {
    if frames == [] then (m, v, []) else
      var m' := m.Next(frames[0].larc);
      var (v', s) := SynthesiseFrom(m'.FrameCoefs(), 0, v, frames[0].s);
      var (m'', v'', rest) := SynthesiseRun(m', v', frames[1..]);
      (m'', v'', [Frame(frames[0].larc, s)] + rest)
  }

  ghost predicate UnclippedRun(m: LarMemory, u: seq<word>, frames: seq<Frame>)
    requires m.Valid() && |u| == 8
    decreases |frames|
  {
    frames == [] ||
    (var m' := m.Next(frames[0].larc);
     UnclippedFrom(m'.FrameCoefs(), 0, u, frames[0].s) &&
     UnclippedRun(m', AnalyseFrom(m'.FrameCoefs(), 0, u, frames[0].s).0, frames[1..]))
  }

  /** Whole runs: as long as no forward addition saturates, the synthesis filter returns every
      sample of every frame, whatever the coded LARs, and both filters end in the same state. */
  lemma {:induction false} RunInverse(m: LarMemory, u: seq<word>, frames: seq<Frame>)
    requires m.Valid() && |u| == 8
    requires UnclippedRun(m, u, frames)
    ensures var (m', u', residuals) := AnalyseRun(m, u, frames);
            SynthesiseRun(m, u, residuals) == (m', u', frames)
    decreases |frames|
  {
    hide AnalyseFrom, SynthesiseFrom, UnclippedFrom, LarMemory.Next, LarMemory.FrameCoefs;
    if frames != [] {
      var larc := frames[0].larc;
      var m1 := m.Next(larc);
      FrameInverse(m1.FrameCoefs(), 0, u, frames[0].s);
      var (u1, d) := AnalyseFrom(m1.FrameCoefs(), 0, u, frames[0].s);
      RunInverse(m1, u1, frames[1..]);
      SynthesiseRunCons(m, u, Frame(larc, d), AnalyseRun(m1, u1, frames[1..]).2);
      assert [frames[0]] + frames[1..] == frames;
    }
  }

  /** The first frame of a run with a saturating sample, the index of that sample and its loss. */
  ghost function RunLoss(m: LarMemory, u: seq<word>, frames: seq<Frame>): (r: (nat, nat, int))
    requires m.Valid() && |u| == 8
    ensures r.0 <= |frames| && r.1 <= 160 && (r.0 == |frames| <==> UnclippedRun(m, u, frames))
    ensures r.0 == |frames| ==> r.2 == 0
    decreases |frames|
  {
    if frames == [] then (0, 0, 0) else
      var m' := m.Next(frames[0].larc);
      var (j, e) := FrameLoss(m'.FrameCoefs(), 0, u, frames[0].s);
      if j < 160 then (0, j, e) else
        var (f, j', e') := RunLoss(m', AnalyseFrom(m'.FrameCoefs(), 0, u, frames[0].s).0, frames[1..]);
        (f + 1, j', e')
  }

  /** Whole runs, saturated or not: everything before the first saturating sample is returned, and
      that sample is returned exactly if its loss is zero.  So a run comes back only if the loss is
      zero, and it does come back if there is no saturating sample (RunInverse). */
  lemma {:induction false} RunDeparts(m: LarMemory, u: seq<word>, frames: seq<Frame>)
    requires m.Valid() && |u| == 8
    ensures var (f, j, e) := RunLoss(m, u, frames);
            var out := SynthesiseRun(m, u, AnalyseRun(m, u, frames).2).2;
            out[..f] == frames[..f] && (f < |frames| ==> Departs(frames[f].s, out[f].s, j, e)) &&
            (out == frames ==> e == 0)
    decreases |frames|
  {
    hide AnalyseFrom, SynthesiseFrom, UnclippedFrom, FrameLoss, LarMemory.Next, LarMemory.FrameCoefs;
    if frames != [] {
      var larc, s := frames[0].larc, frames[0].s;
      var m1 := m.Next(larc);
      var c := m1.FrameCoefs();
      var (u1, d) := AnalyseFrom(c, 0, u, s);
      var (v1, t) := SynthesiseFrom(c, 0, u, d);
      var rest := AnalyseRun(m1, u1, frames[1..]).2;
      SynthesiseRunCons(m, u, Frame(larc, d), rest);
      FrameDeparts(c, 0, u, s);
      var (j, e) := FrameLoss(c, 0, u, s);
      if j == 160 {
        FrameInverse(c, 0, u, s);
        RunDeparts(m1, u1, frames[1..]);
        var out := SynthesiseRun(m1, u1, rest).2;
        var f := RunLoss(m1, u1, frames[1..]).0;
        assert ([frames[0]] + out)[..f + 1] == [frames[0]] + out[..f];
        assert frames[..f + 1] == [frames[0]] + frames[1..][..f];
        assert ([frames[0]] + out)[1..] == out;
      }
    }
  }

  lemma SynthesiseRunCons(m: LarMemory, v: seq<word>, first: Frame, rest: seq<Frame>)
    requires m.Valid() && |v| == 8
    ensures var m' := m.Next(first.larc);
            var (v', s) := SynthesiseFrom(m'.FrameCoefs(), 0, v, first.s);
            var (m'', v'', frames) := SynthesiseRun(m', v', rest);
            SynthesiseRun(m, v, [first] + rest) == (m'', v'', [Frame(first.larc, s)] + frames)
  {
    hide SynthesiseFrom;
    assert ([first] + rest)[1..] == rest;
  }

  // ---------------------------------------------------------------- a frame that does not come back

  ghost predicate Quiet(s: seq<word>) {
    forall i :: 0 <= i < |s| ==> s[i] == 0
  }

  lemma TimesZero(rp: word)
    requires rp != MIN_WORD
    ensures MultR(rp, 0) == 0
  {
    MultRValue(rp, 0);
  }

  /** From a cleared memory any sample passes the lattice unchanged. */
  lemma {:induction false} ClearedStages(rp: seq<coef>, u: seq<word>, i: nat, di: word, sav: word)
    requires i <= |rp| == |u| && Quiet(u)
    ensures Unclipped(rp, u, i, di)
    ensures di == sav == 0 ==> Quiet(Analyse(rp, u, i, di, sav).0)
    decreases |u| - i
  {
    hide MultR;
    if i < |u| {
      TimesZero(rp[i]);
      ClearedStages(rp, u, i + 1, Add(di, MultR(rp[i], u[i])), Add(u[i], MultR(rp[i], di)));
    }
  }

  lemma {:induction false} QuietSignal(rp: seq<coef>, u: seq<word>, s: seq<word>)
    requires |rp| == |u| > 0 && Quiet(u) && Quiet(s)
    ensures UnclippedSignal(rp, u, s) && Quiet(AnalyseSignal(rp, u, s).0)
    decreases |s|
  {
    hide Analyse, Unclipped;
    if s != [] {
      ClearedStages(rp, u, 0, s[0], s[0]);
      QuietSignal(rp, Analyse(rp, u, 0, s[0], s[0]).0, s[1..]);
    }
  }

  /** Full scale twice, after silence: the second sample meets the first one in the memory, and with
      a positive coefficient the sum saturates. */
  lemma FullScaleTwice(rp: seq<coef>, u: seq<word>, s: seq<word>)
    requires |rp| == |u| > 0 && Quiet(u) && rp[0] > 0
    requires |s| >= 2 && s[0] == s[1] == MAX_WORD
    ensures SignalLoss(rp, u, s) == (1, -1)
  {
    hide MultR;
    ClearedStages(rp, u, 0, s[0], s[0]);
    var u1 := Analyse(rp, u, 0, s[0], s[0]).0;
    assert u1[0] == s[0];
    assert MultR(rp[0], u1[0]) > 0 by {
      MultRValue(rp[0], u1[0]);
    }
    assert !Unclipped(rp, u1, 0, s[1]) && Loss(rp, u1, 0, s[1]) == -1;
    assert s[1..][0] == s[1];
    assert SignalLoss(rp, u1, s[1..]) == (0, -1);
  }

  lemma FrameOfFullScale(c: CoefSets, u: seq<word>, s: Samples)
    requires |u| == 8 && Quiet(u) && c[3][0] > 0
    requires Quiet(s[..40]) && s[40] == s[41] == MAX_WORD
    ensures FrameLoss(c, 0, u, s) == (41, -1)
  {
    hide SignalLoss, UnclippedSignal, AnalyseSignal;
    forall i | 0 <= i < 40
      ensures s[i] == 0
    {
      assert s[i] == s[..40][i];
    }
    var s1, s2, s3 := s[13..], s[13..][14..], s[13..][14..][13..];
    QuietSignal(c[0], u, s[..13]);
    var u1 := AnalyseSignal(c[0], u, s[..13]).0;
    QuietSignal(c[1], u1, s1[..14]);
    var u2 := AnalyseSignal(c[1], u1, s1[..14]).0;
    QuietSignal(c[2], u2, s2[..13]);
    var u3 := AnalyseSignal(c[2], u2, s2[..13]).0;
    assert s3[0] == s[40] && s3[1] == s[41] && s3[..120] == s3;
    FullScaleTwice(c[3], u3, s3);
    assert FrameLoss(c, 3, u3, s3) == (1, -1);
    assert FrameLoss(c, 2, u2, s2) == (14, -1);
    assert FrameLoss(c, 1, u1, s1) == (28, -1);
  }

  lemma FirstCoefPositive(m: LarMemory, larc: Lars)
    requires m.Valid() && 32 < larc[0] < 64
    ensures m.Next(larc).FrameCoefs()[3][0] > 0
  {
    assert DecodeLar(larc[0], 0) > 0 by {
      var temp: word := (larc[0] - 32) * 1024;
      MultRValue(INVA[0], temp);
    }
    var m1 := m.Next(larc);
    assert m1.larpp[1 - m1.j][0] == DecodeLar(larc[0], 0);
  }

  /** The saturation is reached: in a frame whose first code is above 32, from a cleared memory and
      after any earlier codes, 40 zero samples followed by 32767 twice.  The second of these comes
      back as less. */
  lemma FullScaleIsLost(m: LarMemory, u: seq<word>, larc: Lars, s: Samples)
    requires m.Valid() && |u| == 8 && Quiet(u)
    requires 32 < larc[0] < 64 && Quiet(s[..40]) && s[40] == s[41] == MAX_WORD
    ensures SynthesiseRun(m, u, AnalyseRun(m, u, [Frame(larc, s)]).2).2[0].s[41] < MAX_WORD
  {
    var frames := [Frame(larc, s)];
    RunDeparts(m, u, frames);
    FirstCoefPositive(m, larc);
    FrameOfFullScale(m.Next(larc).FrameCoefs(), u, s);
    hide FrameLoss, AnalyseFrom, SynthesiseFrom, LarMemory.Next, LarMemory.FrameCoefs;
    assert RunLoss(m, u, frames) == (0, 41, -1);
  }

  // ---------------------------------------------------------------- the procedures, on arrays

  method DecodeLarsInto(larc: seq<word>, larpp: array<word>)
    requires |larc| == 8 && larpp.Length == 8
    modifies larpp
    ensures larpp[..] == DecodeLars(larc)
  {
    for i := 0 to 8
      invariant forall k :: 0 <= k < i ==> larpp[k] == DecodeLar(larc[k], k)
    {
      var temp1 := ToWord(Add(larc[i], MIC[i]) * 1024);
      temp1 := Sub(temp1, B[i] * 2);
      temp1 := MultR(INVA[i], temp1);
      larpp[i] := Add(temp1, temp1);
    }
  }

  /** Coefficients_0_12, _13_26, _27_39 and _40_159. */
  method Coefficients(prev: array<word>, cur: array<word>, segment: nat, larp: array<word>)
    requires prev.Length == cur.Length == larp.Length == 8 && segment < 4
    requires larp != prev && larp != cur
    modifies larp
    ensures forall k :: 0 <= k < 8 ==> larp[k] == Interpolated(prev[k], cur[k], segment)
  {
    for i := 0 to 8
      invariant forall k :: 0 <= k < i ==> larp[k] == Interpolated(prev[k], cur[k], segment)
    {
      match segment {
        case 0 =>
          larp[i] := Add(prev[i] / 4, cur[i] / 4);
          larp[i] := Add(larp[i], prev[i] / 2);
        case 1 =>
          larp[i] := Add(prev[i] / 2, cur[i] / 2);
        case 2 =>
          larp[i] := Add(prev[i] / 4, cur[i] / 4);
          larp[i] := Add(larp[i], cur[i] / 2);
        case 3 =>
          larp[i] := cur[i];
      }
    }
  }

  /** LARp_to_rp, in place. */
  method LarpToRpInPlace(larp: array<word>)
    requires larp.Length == 8
    modifies larp
    ensures forall k :: 0 <= k < 8 ==> larp[k] == LarpToRp(old(larp[k]))
  {
    for i := 0 to 8
      invariant forall k :: 0 <= k < i ==> larp[k] == LarpToRp(old(larp[k]))
      invariant forall k :: i <= k < 8 ==> larp[k] == old(larp[k])
    {
      if larp[i] < 0 {
        var temp: word := if larp[i] == MIN_WORD then MAX_WORD else -larp[i];
        larp[i] := -(if temp < 11059 then temp * 2
                     else if temp < 20070 then temp + 11059
                     else Add(temp / 4, 26112));
      } else {
        var temp := larp[i];
        larp[i] := if temp < 11059 then temp * 2
                   else if temp < 20070 then temp + 11059
                   else Add(temp / 4, 26112);
      }
    }
  }

  ghost predicate AreCoefs(rp: array<word>)
    reads rp
  {
    rp.Length == 8 && forall i :: 0 <= i < 8 ==> rp[i] != MIN_WORD
  }

  ghost function CoefSeq(rp: array<word>): (c: seq<coef>)
    requires AreCoefs(rp)
    reads rp
    ensures |c| == 8 && forall i :: 0 <= i < 8 ==> c[i] == rp[i]
  {
    seq(8, i requires 0 <= i < 8 reads rp => rp[i])
  }

  /** The inner loop of Short_term_analysis_filtering. */
  method AnalyseSample(u: array<word>, rp: array<word>, s: word) returns (di: word)
    requires u.Length == 8 && AreCoefs(rp) && u != rp
    modifies u
    ensures (u[..], di) == Analyse(old(CoefSeq(rp)), old(u[..]), 0, s, s)
  {
    hide MultR, Add;
    ghost var c, u0 := CoefSeq(rp), u[..];
    ghost var all := Analyse(c, u0, 0, s, s);
    di := s;
    var sav := s;
    assert u[..0] + all.0 == all.0;
    for i := 0 to 8
      invariant forall k :: i <= k < 8 ==> u[k] == u0[k]
      invariant var rest := Analyse(c, u0, i, di, sav);
                all == (u[..i] + rest.0, rest.1)
    {
      var ui, rpi := u[i], rp[i];
      ghost var done, rest := u[..i], Analyse(c, u0, i, di, sav);
      u[i] := sav;
      var zzz := MultR(rpi, di);
      sav := Add(ui, zzz);
      zzz := MultR(rpi, ui);
      di := Add(di, zzz);
      ghost var next := Analyse(c, u0, i + 1, di, sav);
      assert rest == ([u[i]] + next.0, next.1);
      assert done + ([u[i]] + next.0) == u[..i + 1] + next.0;
    }
    assert u[..8] + [] == u[..];
  }

  method AnalysisFiltering(u: array<word>, rp: array<word>, s: array<word>, start: nat, n: nat)
    requires u.Length == 8 && AreCoefs(rp) && u != rp && s != u && s != rp
    requires start + n <= s.Length
    modifies u, s
    ensures (u[..], s[start..start + n])
            == old(AnalyseSignal(CoefSeq(rp), u[..], s[start..start + n]))
    ensures s[..start] == old(s[..start]) && s[start + n..] == old(s[start + n..])
  {
    hide Analyse;
    ghost var c, s0 := CoefSeq(rp), s[start..start + n];
    ghost var all := AnalyseSignal(c, u[..], s0);
    assert s0[0..] == s0 && s[start..start] + all.1 == all.1;
    for k := 0 to n
      invariant CoefSeq(rp) == c && AreCoefs(rp)
      invariant forall i :: k <= i < n ==> s[start + i] == s0[i]
      invariant var rest := AnalyseSignal(c, u[..], s0[k..]);
                all == (rest.0, s[start..start + k] + rest.1)
      invariant s[..start] == old(s[..start]) && s[start + n..] == old(s[start + n..])
    {
      ghost var done := s[start..start + k];
      AnalyseSignalStep(c, u[..], s0, k, done);
      var d := AnalyseSample(u, rp, s[start + k]);
      s[start + k] := d;
      assert s[start..start + (k + 1)] == done + [d];
    }
    assert s0[n..] == [] && s[start..start + n] + [] == s[start..start + n];
  }

  lemma AnalyseSignalStep(rp: seq<coef>, u: seq<word>, s: seq<word>, k: nat, done: seq<word>)
    requires |rp| == |u| && k < |s|
    ensures var rest := AnalyseSignal(rp, u, s[k..]);
            var (u', d) := Analyse(rp, u, 0, s[k], s[k]);
            var next := AnalyseSignal(rp, u', s[k + 1..]);
            (rest.0, done + rest.1) == (next.0, (done + [d]) + next.1)
  {
    assert s[k..][1..] == s[k + 1..];
    var (u', d) := Analyse(rp, u, 0, s[k], s[k]);
    var next := AnalyseSignal(rp, u', s[k + 1..]);
    assert AnalyseSignal(rp, u, s[k..]) == (next.0, [d] + next.1);
    assert done + ([d] + next.1) == (done + [d]) + next.1;
  }

  /** The inner loop of Short_term_synthesis_filtering; v has a ninth cell. */
  method SynthesiseSample(v: array<word>, rrp: array<word>, wt: word) returns (sri: word)
    requires v.Length == 9 && AreCoefs(rrp) && v != rrp
    modifies v
    ensures (v[1..], sri) == Synthesise(old(CoefSeq(rrp)), old(v[..8]), 0, wt)
    ensures v[0] == sri
  {
    ghost var c, v0 := CoefSeq(rrp), v[..8];
    sri := wt;
    assert v[9..] == [];
    var i := 8;
    while i > 0
      invariant 0 <= i <= 8
      invariant forall k :: 0 <= k < i ==> v[k] == v0[k]
      invariant i < 8 ==> v[i + 1..] == Synthesise(c, v0, i, wt).0
      invariant sri == Synthesise(c, v0, i, wt).1
    {
      i := i - 1;
      sri := Sub(sri, GsmMultR(rrp[i], v[i]));
      ghost var above := v[i + 2..];
      v[i + 1] := Add(v[i], GsmMultR(rrp[i], sri));
      assert v[i + 1..] == [v[i + 1]] + above;
    }
    v[0] := sri;
  }

  method SynthesisFiltering(v: array<word>, rrp: array<word>, wt: array<word>, sr: array<word>,
                            start: nat, n: nat)
    requires v.Length == 9 && AreCoefs(rrp) && v != rrp && wt != v && sr != v && sr != rrp && sr != wt
    requires start + n <= wt.Length == sr.Length
    modifies v, sr
    ensures (v[..8], sr[start..start + n])
            == old(SynthesiseSignal(CoefSeq(rrp), v[..8], wt[start..start + n]))
    ensures sr[..start] == old(sr[..start])
  {
    hide Synthesise;
    ghost var c, w := CoefSeq(rrp), wt[start..start + n];
    ghost var all := SynthesiseSignal(c, v[..8], w);
    assert w[0..] == w && sr[start..start] + all.1 == all.1;
    for k := 0 to n
      invariant CoefSeq(rrp) == c && AreCoefs(rrp)
      invariant var rest := SynthesiseSignal(c, v[..8], w[k..]);
                all == (rest.0, sr[start..start + k] + rest.1)
      invariant sr[..start] == old(sr[..start])
    {
      ghost var v0, before := v[..8], sr[start..start + k];
      SynthesiseSignalStep(c, v0, w, k, before);
      assert wt[start + k] == w[k];
      var sri := SynthesiseSample(v, rrp, wt[start + k]);
      assert v[..8] == [v[0]] + v[1..][..7];
      sr[start + k] := sri;
      assert sr[start..start + (k + 1)] == before + [sri];
    }
    assert w[n..] == [] && sr[start..start + n] + [] == sr[start..start + n];
  }

  lemma SynthesiseSignalStep(rp: seq<coef>, v: seq<word>, wt: seq<word>, k: nat, before: seq<word>)
    requires |rp| == |v| > 0 && k < |wt|
    ensures var rest := SynthesiseSignal(rp, v, wt[k..]);
            var r := Synthesise(rp, v, 0, wt[k]);
            var next := SynthesiseSignal(rp, Remember(r), wt[k + 1..]);
            (rest.0, before + rest.1) == (next.0, (before + [r.1]) + next.1)
  {
    hide Synthesise, Remember;
    assert wt[k..][1..] == wt[k + 1..];
    var r := Synthesise(rp, v, 0, wt[k]);
    var next := SynthesiseSignal(rp, Remember(r), wt[k + 1..]);
    assert SynthesiseSignal(rp, v, wt[k..]) == (next.0, [r.1] + next.1);
    assert before + ([r.1] + next.1) == (before + [r.1]) + next.1;
  }

  // ---------------------------------------------------------------- one segment of a frame

  /** Coefficients_*; LARp_to_rp; FILTER, in the analysis filter. */
  method AnalyseSegment(prev: array<word>, cur: array<word>, k: nat, u: array<word>, s: array<word>,
                        ghost rp: seq<coef>)
    requires k < 4 && prev.Length == cur.Length == 8 && rp == Coefs(prev[..], cur[..], k)
    requires u.Length == 8 && s.Length == 160
    requires u != prev && u != cur && s != prev && s != cur && s != u
    modifies u, s
    ensures (u[..], s[Start(k)..Start(k + 1)])
            == old(AnalyseSignal(rp, u[..], s[Start(k)..Start(k + 1)]))
    ensures s[..Start(k)] == old(s[..Start(k)]) && s[Start(k + 1)..] == old(s[Start(k + 1)..])
  {
    var larp := new word[8];
    Coefficients(prev, cur, k, larp);
    LarpToRpInPlace(larp);
    assert CoefSeq(larp) == rp;
    AnalysisFiltering(u, larp, s, Start(k), Start(k + 1) - Start(k));
  }

  method SynthesiseSegmentOf(prev: array<word>, cur: array<word>, k: nat, v: array<word>, wt: array<word>,
                             sr: array<word>, ghost rp: seq<coef>)
    requires k < 4 && prev.Length == cur.Length == 8 && rp == Coefs(prev[..], cur[..], k)
    requires v.Length == 9 && wt.Length == sr.Length == 160
    requires v != prev && v != cur && v != wt && v != sr && sr != prev && sr != cur && sr != wt
    modifies v, sr
    ensures (v[..8], sr[Start(k)..Start(k + 1)])
            == old(SynthesiseSignal(rp, v[..8], wt[Start(k)..Start(k + 1)]))
    ensures sr[..Start(k)] == old(sr[..Start(k)])
  {
    var larp := new word[8];
    Coefficients(prev, cur, k, larp);
    LarpToRpInPlace(larp);
    assert CoefSeq(larp) == rp;
    SynthesisFiltering(v, larp, wt, sr, Start(k), Start(k + 1) - Start(k));
  }

  lemma AnalyseFromStep(c: CoefSets, k: nat, u: seq<word>, s: seq<word>, done: seq<word>)
    requires k < 4 && |u| == 8 && |s| == 160
    ensures var start, end := Start(k), Start(k + 1);
            var rest := AnalyseFrom(c, k, u, s[start..]);
            var (u', d) := AnalyseSignal(c[k], u, s[start..end]);
            var next := AnalyseFrom(c, k + 1, u', s[end..]);
            (rest.0, done + rest.1) == (next.0, (done + d) + next.1)
  {
    var start, end := Start(k), Start(k + 1);
    assert s[start..][..end - start] == s[start..end] && s[start..][end - start..] == s[end..];
    var (u', d) := AnalyseSignal(c[k], u, s[start..end]);
    var next := AnalyseFrom(c, k + 1, u', s[end..]);
    assert done + (d + next.1) == (done + d) + next.1;
  }

  lemma SynthesiseFromStep(c: CoefSets, k: nat, v: seq<word>, wt: seq<word>, done: seq<word>)
    requires k < 4 && |v| == 8 && |wt| == 160
    ensures var start, end := Start(k), Start(k + 1);
            var rest := SynthesiseFrom(c, k, v, wt[start..]);
            var (v', s) := SynthesiseSignal(c[k], v, wt[start..end]);
            var next := SynthesiseFrom(c, k + 1, v', wt[end..]);
            (rest.0, done + rest.1) == (next.0, (done + s) + next.1)
  {
    var start, end := Start(k), Start(k + 1);
    assert wt[start..][..end - start] == wt[start..end] && wt[start..][end - start..] == wt[end..];
    var (v', s) := SynthesiseSignal(c[k], v, wt[start..end]);
    var next := SynthesiseFrom(c, k + 1, v', wt[end..]);
    assert done + (s + next.1) == (done + s) + next.1;
  }

  /** Segments before `k` of the frame s0 have been replaced by their residual. */
  ghost predicate AnalysedUpTo(c: CoefSets, k: nat, u: seq<word>, s: seq<word>, s0: seq<word>,
                               all: (seq<word>, seq<word>))
    requires k <= 4 && |u| == 8 && |s| == |s0| == 160
  {
    s[Start(k)..] == s0[Start(k)..] &&
    (var rest := AnalyseFrom(c, k, u, s0[Start(k)..]);
     all == (rest.0, s[..Start(k)] + rest.1))
  }

  lemma AnalysedStep(c: CoefSets, k: nat, u: seq<word>, s: seq<word>, s0: seq<word>,
                     all: (seq<word>, seq<word>), u': seq<word>, s': seq<word>)
    requires k < 4 && |u| == |u'| == 8 && |s| == |s0| == |s'| == 160
    requires AnalysedUpTo(c, k, u, s, s0, all)
    requires (u', s'[Start(k)..Start(k + 1)]) == AnalyseSignal(c[k], u, s[Start(k)..Start(k + 1)])
    requires s'[..Start(k)] == s[..Start(k)] && s'[Start(k + 1)..] == s[Start(k + 1)..]
    ensures AnalysedUpTo(c, k + 1, u', s', s0, all)
  {
    var start, end := Start(k), Start(k + 1);
    SliceOfSuffix(s, s0, start, end);
    AnalyseFromStep(c, k, u, s0, s[..start]);
    Stitch(all, AnalyseFrom(c, k, u, s0[start..]), AnalyseFrom(c, k + 1, u', s0[end..]), s, s', start, end);
  }

  lemma Stitch(all: (seq<word>, seq<word>), rest: (seq<word>, seq<word>), next: (seq<word>, seq<word>),
               s: seq<word>, s': seq<word>, start: nat, end: nat)
    requires start <= end <= |s| == |s'| && s'[..start] == s[..start]
    requires all == (rest.0, s[..start] + rest.1)
    requires (rest.0, s[..start] + rest.1) == (next.0, (s[..start] + s'[start..end]) + next.1)
    ensures all == (next.0, s'[..end] + next.1)
  {
    assert s'[..end] == s'[..start] + s'[start..end];
  }

  lemma SliceOfSuffix(s: seq<word>, s0: seq<word>, start: nat, end: nat)
    requires start <= end <= |s| == |s0| && s[start..] == s0[start..]
    ensures s[start..end] == s0[start..end] && s[end..] == s0[end..]
  {
    assert s[start..][..end - start] == s[start..end] && s0[start..][..end - start] == s0[start..end];
    assert s[start..][end - start..] == s[end..] && s0[start..][end - start..] == s0[end..];
  }

  /** Segments before `k` of the residual wt have been synthesised into sr. */
  ghost predicate SynthesisedUpTo(c: CoefSets, k: nat, v: seq<word>, wt: seq<word>, sr: seq<word>,
                                  all: (seq<word>, seq<word>))
    requires k <= 4 && |v| == 8 && |wt| == |sr| == 160
  {
    var rest := SynthesiseFrom(c, k, v, wt[Start(k)..]);
    all == (rest.0, sr[..Start(k)] + rest.1)
  }

  lemma SynthesisedStep(c: CoefSets, k: nat, v: seq<word>, wt: seq<word>, sr: seq<word>,
                        all: (seq<word>, seq<word>), v': seq<word>, sr': seq<word>)
    requires k < 4 && |v| == |v'| == 8 && |wt| == |sr| == |sr'| == 160
    requires SynthesisedUpTo(c, k, v, wt, sr, all)
    requires (v', sr'[Start(k)..Start(k + 1)]) == SynthesiseSignal(c[k], v, wt[Start(k)..Start(k + 1)])
    requires sr'[..Start(k)] == sr[..Start(k)]
    ensures SynthesisedUpTo(c, k + 1, v', wt, sr', all)
  {
    var start, end := Start(k), Start(k + 1);
    SynthesiseFromStep(c, k, v, wt, sr[..start]);
    Stitch(all, SynthesiseFrom(c, k, v, wt[start..]), SynthesiseFrom(c, k + 1, v', wt[end..]), sr, sr', start, end);
  }

  /** The four segments of Gsm_Short_Term_Analysis_Filter, after LARpp_j has been decoded. */
  method AnalyseFrame(prev: array<word>, cur: array<word>, u: array<word>, s: array<word>, ghost c: CoefSets)
    requires prev.Length == cur.Length == u.Length == 8 && s.Length == 160
    requires u != prev && u != cur && s != prev && s != cur && s != u
    requires forall k :: 0 <= k < 4 ==> c[k] == Coefs(prev[..], cur[..], k)
    modifies u, s
    ensures (u[..], s[..]) == old(AnalyseFrom(c, 0, u[..], s[..]))
  {
    ghost var all, s0 := AnalyseFrom(c, 0, u[..], s[..]), s[..];
    assert AnalysedUpTo(c, 0, u[..], s[..], s0, all) by {
      assert s[..0] + all.1 == all.1 && s0[0..] == s0;
    }
    for k := 0 to 4
      invariant AnalysedUpTo(c, k, u[..], s[..], s0, all)
    {
      ghost var u1, s1 := u[..], s[..];
      assert s[Start(k)..Start(k + 1)] == s1[Start(k)..Start(k + 1)];
      AnalyseSegment(prev, cur, k, u, s, c[k]);
      AnalysedStep(c, k, u1, s1, s0, all, u[..], s[..]);
    }
    assert s[..160] + [] == s[..];
  }

  /** The four segments of Gsm_Short_Term_Synthesis_Filter. */
  method SynthesiseFrame(prev: array<word>, cur: array<word>, v: array<word>, wt: array<word>, sr: array<word>,
                         ghost c: CoefSets)
    requires prev.Length == cur.Length == 8 && v.Length == 9 && wt.Length == sr.Length == 160
    requires v != prev && v != cur && v != wt && v != sr && sr != prev && sr != cur && sr != wt
    requires forall k :: 0 <= k < 4 ==> c[k] == Coefs(prev[..], cur[..], k)
    modifies v, sr
    ensures (v[..8], sr[..]) == old(SynthesiseFrom(c, 0, v[..8], wt[..]))
  {
    ghost var all := SynthesiseFrom(c, 0, v[..8], wt[..]);
    assert SynthesisedUpTo(c, 0, v[..8], wt[..], sr[..], all) by {
      assert sr[..0] + all.1 == all.1 && wt[..][0..] == wt[..];
    }
    for k := 0 to 4
      invariant SynthesisedUpTo(c, k, v[..8], wt[..], sr[..], all)
    {
      ghost var v1, sr1 := v[..8], sr[..];
      SynthesiseSegmentOf(prev, cur, k, v, wt, sr, c[k]);
      SynthesisedStep(c, k, v1, wt[..], sr1, all, v[..8], sr[..]);
    }
    assert sr[..160] + [] == sr[..];
  }
}
