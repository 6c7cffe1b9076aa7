/** The GSM 06.10 coder and decoder (gsm/src/code.c, gsm/src/decode.c), first as functions on
  states and then as a class with the fields of gsm_state that the procedures update.

  The main result is the lockstep of the encoder's local decoder with the real decoder: after every
  frame of every run both hold the same residual history and the same log-area ratios. */
module GsmCodec {
  import opened Words
  import ShortTerm
  import Preprocess
  import Lpc
  import Rpe
  import LongTerm

  type Samples = ShortTerm.Samples
  type Lars = ShortTerm.Lars
  type History = LongTerm.History

  // ---------------------------------------------------------------- parameters of a frame

  /** One sub-segment's parameters. */
  datatype SubFields = SubFields(nc: word, bc: word, mc: word, xmaxc: word, xmc: seq<word>) {
    predicate Fit() {
      0 <= nc <= 127 && 0 <= bc <= 3 && 0 <= mc <= 3 && 0 <= xmaxc <= 63 && Rpe.IsRpeCode(xmc)
    }
  }

  /** Sub-segment parameters that fit their bit fields: 7, 2, 2, 6 and 13 times 3 bits. */
  type SubParams = s: SubFields | s.Fit() witness SubFields(40, 0, 0, 0, seq(13, _ => 0))

  /** Coded log-area ratios that fit 6, 6, 5, 5, 4, 4, 3 and 3 bits. */
  type LarCodes = s: Lars | forall i :: 0 <= i < 8 ==> 0 <= s[i] <= ShortTerm.MAC[i] - ShortTerm.MIC[i]
    witness seq(8, _ => 0)

  type FourSubs = s: seq<SubParams> | |s| == 4 witness seq(4, _ => SubFields(40, 0, 0, 0, seq(13, _ => 0)))

  /** The parameters of a frame; the type says that all of them fit their bit fields. */
  datatype FrameParams = FrameParams(larc: LarCodes, sub: FourSubs)

  // ---------------------------------------------------------------- encoder

  datatype EncState = EncState(pre: Preprocess.PreState, u: seq<word>, lar: ShortTerm.LarMemory, h: History) {
    ghost predicate Valid() {
      Preprocess.Inv(pre) && |u| == 8 && lar.Valid()
    }
  }

  datatype DecState = DecState(h: History, nrp: nat, v: seq<word>, lar: ShortTerm.LarMemory, msr: word) {
    ghost predicate Valid() {
      40 <= nrp <= 120 && |v| == 8 && lar.Valid()
    }
  }

  /** Sub-segment k of a frame. */
  function Part(d: Samples, k: nat): (s: LongTerm.Segment)
    requires k < 4
  {
    d[40 * k..40 * k + 40]
  }

  function EncodeSub(h: History, d: LongTerm.Segment): (r: (History, SubParams))
    ensures 40 <= r.1.nc <= 120
  {
    var p := LongTerm.Parameters(d, h);
    var dpp := LongTerm.Estimate(h, p);
    Local(h, p, dpp, Rpe.Encoded(LongTerm.Residual(d, dpp)))
  }

  /** The local decoder of Gsm_Coder: the coded sub-segment is reconstructed from its parameters. */
  function Local(h: History, p: LongTerm.LtpParams, dpp: LongTerm.Segment, r: Rpe.RpeParams)
    : (result: (History, SubParams))
    requires p.Valid() && r.Valid()
  {
    (LongTerm.Advance(h, LongTerm.Sum(Rpe.Decoded(r.xmaxc, r.mc, r.xmc), dpp)),
     SubFields(p.nc, p.bc, r.mc, r.xmaxc, r.xmc))
  }

  /** Sub-segments k..3. */
  function EncodeSubs(h: History, d: Samples, k: nat): (r: (History, seq<SubParams>))
    requires k <= 4
    ensures |r.1| == 4 - k
    decreases 4 - k, h
  {
    if k == 4 then (h, []) else
      var (h', sub) := EncodeSub(h, Part(d, k));
      var (h'', subs) := EncodeSubs(h', d, k + 1);
      (h'', [sub] + subs)
  }

  /** LPC analysis as Gsm_Coder uses it: the codes, and the signal it leaves behind. */
  function Lpcs(so: Samples): (r: (LarCodes, Samples)) {
    (Lpc.Analysis(so), Lpc.Rescaled(so))
  }

  /** The part of Gsm_Coder that works on whole frames: preprocessing, LPC analysis, short-term
      analysis.  Returns the new state without its history, the codes and the residual. */
  function EncodeShort(st: EncState, s: Samples): (r: (EncState, LarCodes, Samples))
    requires st.Valid()
    ensures r.0.Valid() && r.0.h == st.h
  {
    var (pre, so) := Preprocess.Run(st.pre, s);
    var (larc, so') := Lpcs(so);
    var lar := st.lar.Next(larc);
    var (u, d) := ShortTerm.AnalyseFrom(lar.FrameCoefs(), 0, st.u, so');
    (EncState(pre, u, lar, st.h), larc, d)
  }

  /** Gsm_Coder. */
  function Encode(st: EncState, s: Samples): (r: (EncState, FrameParams))
    requires st.Valid()
    ensures r.0.Valid()
  {
    var (st', larc, d) := EncodeShort(st, s);
    var (h, subs) := EncodeSubs(st.h, d, 0);
    (st'.(h := h), FrameParams(larc, subs))
  }

  // ---------------------------------------------------------------- decoder

  function DecodeSub(h: History, nrp: nat, sub: SubParams): (r: (LongTerm.Segment, nat))
    requires 40 <= nrp <= 120
    ensures 40 <= r.1 <= 120
  {
    var nr := LongTerm.UsedLag(sub.nc, nrp);
    var erp := Rpe.Decoded(sub.xmaxc, sub.mc, sub.xmc);
    (LongTerm.Reconstruct(h, LongTerm.LtpParams(nr, sub.bc), erp), nr)
  }

  /** Sub-segments k..3: history, last lag, and the residual handed to the short-term filter. */
  function DecodeSubs(h: History, nrp: nat, sub: FourSubs, k: nat): (r: (History, nat, seq<word>))
    requires 40 <= nrp <= 120 && k <= 4
    ensures 40 <= r.1 <= 120 && |r.2| == 160 - 40 * k
    decreases 4 - k, h
  {
    if k == 4 then (h, nrp, []) else
      var (drp, nr) := DecodeSub(h, nrp, sub[k]);
      var (h', nrp', wt) := DecodeSubs(LongTerm.Advance(h, drp), nr, sub, k + 1);
      (h', nrp', drp + wt)
  }

  /** Postprocessing: de-emphasis, upscaling, and truncation to thirteen bits. */
  function Deemphasise(msr: word, s: seq<word>): (r: (word, seq<word>))
    ensures |r.1| == |s|
    decreases |s|
  {
    hide MultR, Add, Truncated;
    if s == [] then (msr, []) else
      var m := Add(s[0], MultR(msr, 28180));
      var (m', rest) := Deemphasise(m, s[1..]);
      (m', [Truncated(Add(m, m))] + rest)
  }

  // ---------------------------------------------------------------- de-emphasis against pre-emphasis

  /** The final addition of pre-emphasis does not saturate, for any sample. */
  predicate EmphasisFits(st: Preprocess.PreState, s: seq<word>)
    requires Preprocess.Inv(st)
    decreases |s|
  {
    s == [] ||
    (var st' := Preprocess.Step(st, s[0]).0;
     MIN_WORD <= st'.mp + MultR(st.mp, -28180) <= MAX_WORD && EmphasisFits(st', s[1..]))
  }

  /** No filter output is one for which the two roundings do not cancel. */
  predicate NeverHalfWay(st: Preprocess.PreState, s: seq<word>)
    requires Preprocess.Inv(st)
    decreases |s|
  {
    s == [] || (st.mp % 8192 != 4096 && NeverHalfWay(Preprocess.Step(st, s[0]).0, s[1..]))
  }

  /** One sample: the recursion of the decoder follows that of the encoder. */
  lemma EmphasisUndoneOnce(m: word, mp: word, mp': word)
    requires 0 <= m - mp <= 8 && MIN_WORD <= mp' + MultR(mp, -28180) <= MAX_WORD
    ensures var m' := Add(Add(mp', MultR(mp, -28180)), MultR(m, 28180));
            0 <= m' - mp' <= 8 && (m == mp && mp % 8192 != 4096 ==> m' == mp')
  {
    Preprocess.EmphasisRoundingCancels(mp);
    MultRValue(mp, -28180);
    MultRValue(mp, 28180);
    MultRValue(m, 28180);
  }

  /** De-emphasis undoes pre-emphasis: from states that agree, over every run, the decoder's msr stays
      within eight units above the encoder's offset-compensated signal mp, and is equal to it as
      long as no mp is 4096 modulo 8192. */
  lemma {:induction false} EmphasisUndone(st: Preprocess.PreState, s: seq<word>, msr: word)
    requires Preprocess.Inv(st) && EmphasisFits(st, s) && 0 <= msr - st.mp <= 8
    ensures var (st', xs) := Preprocess.Run(st, s);
            var msr' := Deemphasise(msr, xs).0;
            0 <= msr' - st'.mp <= 8 && (msr == st.mp && NeverHalfWay(st, s) ==> msr' == st'.mp)
    decreases |s|
  {
    if s != [] {
      var (st1, x) := Preprocess.Step(st, s[0]);
      PreemphasisOf(st, s[0]);
      EmphasisUndoneOnce(msr, st.mp, st1.mp);
      hide MultR, Add, Truncated, Preprocess.Step;
      var xs := Preprocess.Run(st1, s[1..]).1;
      assert ([x] + xs)[1..] == xs;
      EmphasisUndone(st1, s[1..], Add(x, MultR(msr, 28180)));
    }
  }

  /** And what it plays is twice that, cut to thirteen bits. */
  lemma {:induction false} PlayedIsTwice(msr: word, s: seq<word>)
    requires s != []
    ensures var (m, out) := Deemphasise(msr, s); out[|s| - 1] == Truncated(Add(m, m))
    decreases |s|
  {
    hide MultR, Add, Truncated;
    if |s| > 1 {
      PlayedIsTwice(Add(s[0], MultR(msr, 28180)), s[1..]);
    } else {
      assert s[1..] == [];
    }
  }

  lemma PreemphasisOf(st: Preprocess.PreState, s: word)
    requires Preprocess.Inv(st)
    ensures var (st', x) := Preprocess.Step(st, s); x == Add(st'.mp, MultR(st.mp, -28180))
  {
    hide MultR, Add, Preprocess.NextZ2;
  }

  /** x & 0xFFF8 of a signed word. */
  function Truncated(x: word): (y: word)
    ensures y % 8 == 0 && 0 <= x - y < 8
  {
    x / 8 * 8
  }

  /** Gsm_Decoder, for every frame of parameters that a bit stream can carry. */
  function Decode(st: DecState, p: FrameParams): (r: (DecState, Samples))
    requires st.Valid()
    ensures r.0.Valid()
  {
    hide DecodeSubs, ShortTerm.SynthesiseFrom, Deemphasise;
    var (h, nrp, wt) := DecodeSubs(st.h, st.nrp, p.sub, 0);
    var lar := st.lar.Next(p.larc);
    var (v, s) := ShortTerm.SynthesiseFrom(lar.FrameCoefs(), 0, st.v, wt);
    var (msr, out) := Deemphasise(st.msr, s);
    (DecState(h, nrp, v, lar, msr), out)
  }

  // ---------------------------------------------------------------- lockstep

  /** The decoder holds what the encoder's local decoder holds. */
  ghost predicate InStep(enc: EncState, dec: DecState) {
    enc.Valid() && dec.Valid() && enc.h == dec.h && enc.lar == dec.lar
  }

  /** A sub-segment: both sides compute the same new history from the transmitted parameters. */
  lemma SubInStep(h: History, d: LongTerm.Segment, nrp: nat)
    requires 40 <= nrp <= 120
    ensures var (h', sub) := EncodeSub(h, d);
            LongTerm.Advance(h, DecodeSub(h, nrp, sub).0) == h'
  {
  }

  lemma {:induction false} SubsInStep(h: History, d: Samples, nrp: nat, k: nat, all: FourSubs)
    requires k <= 4 && 40 <= nrp <= 120
    requires all[k..] == EncodeSubs(h, d, k).1
    ensures DecodeSubs(h, nrp, all, k).0 == EncodeSubs(h, d, k).0
    decreases 4 - k
  {
    if k < 4 {
      var (h', sub) := EncodeSub(h, Part(d, k));
      SubInStep(h, Part(d, k), nrp);
      assert all[k] == all[k..][0] && all[k + 1..] == all[k..][1..];
      var (drp, nr) := DecodeSub(h, nrp, sub);
      SubsInStep(h', d, nr, k + 1, all);
    }
  }

  /** What the decoder plays for a sub-segment differs from the encoder's short-term residual by no
      more than the RPE coding of the long-term residual does, where its subtraction does not
      saturate; so without RPE loss it is that residual. */
  lemma SubErrorIsRpeError(h: History, d: LongTerm.Segment, nrp: nat, k: nat)
    requires 40 <= nrp <= 120 && k < 40
    requires MIN_WORD <= d[k] - LongTerm.Estimate(h, LongTerm.Parameters(d, h))[k] <= MAX_WORD
    ensures var sub := EncodeSub(h, d).1;
            var e := LongTerm.Residual(d, LongTerm.Estimate(h, LongTerm.Parameters(d, h)));
            Distance(DecodeSub(h, nrp, sub).0[k], d[k]) <= Distance(Rpe.Decoded(sub.xmaxc, sub.mc, sub.xmc)[k], e[k])
  {
    hide LongTerm.Parameters, LongTerm.Estimate, LongTerm.Residual, LongTerm.Reconstruct, Rpe.Encoded, Rpe.Decoded;
    var p := LongTerm.Parameters(d, h);
    var sub := EncodeSub(h, d).1;
    LongTerm.ResidualErrorKept(h, p, d, Rpe.Decoded(sub.xmaxc, sub.mc, sub.xmc), k);
  }

  /** A decoder that receives the unquantised long-term residuals plays the sub-segments themselves,
      exactly where the encoder's subtraction does not saturate. */
  lemma UnquantisedSub(h: History, d: LongTerm.Segment, nrp: nat, k: nat)
    requires 40 <= nrp <= 120 && k < 40
    ensures var (sub, p) := (EncodeSub(h, d).1, LongTerm.Parameters(d, h));
            var e := LongTerm.Residual(d, LongTerm.Estimate(h, p));
            LongTerm.Reconstruct(h, LongTerm.LtpParams(LongTerm.UsedLag(sub.nc, nrp), sub.bc), e)[k] == d[k]
            <==> MIN_WORD <= d[k] - LongTerm.Estimate(h, p)[k] <= MAX_WORD
  {
    hide LongTerm.Parameters, LongTerm.Estimate, LongTerm.Residual, LongTerm.Reconstruct, Rpe.Encoded, Rpe.Decoded;
    LongTerm.ResidualUndone(h, LongTerm.Parameters(d, h), d, k);
  }

  /** One frame keeps encoder and decoder in step, whatever the rest of their states. */
  lemma FrameInStep(enc: EncState, dec: DecState, s: Samples)
    requires InStep(enc, dec)
    ensures var (enc', p) := Encode(enc, s);
            InStep(enc', Decode(dec, p).0)
  {
    var (st', larc, d) := EncodeShort(enc, s);
    var subs := EncodeSubs(enc.h, d, 0).1;
    assert subs[0..] == subs;
    SubsInStep(enc.h, d, dec.nrp, 0, subs);
  }

  /** The order of the stages: if the decoder recovers the short-term residual of a frame and has the
      encoder's filter memory, then its synthesis filter returns the signal that the encoder's
      preprocessing and LPC analysis handed to the analysis filter, and postprocessing is all that
      is left; the memories agree again. */
  lemma TransparentFrame(enc: EncState, dec: DecState, s: Samples)
    requires InStep(enc, dec) && dec.v == enc.u
    requires var (_, larc, d) := EncodeShort(enc, s);
             var so := Lpc.Rescaled(Preprocess.Run(enc.pre, s).1);
             DecodeSubs(dec.h, dec.nrp, EncodeSubs(enc.h, d, 0).1, 0).2 == d &&
             ShortTerm.UnclippedFrom(enc.lar.Next(larc).FrameCoefs(), 0, enc.u, so)
    ensures var (enc', p) := Encode(enc, s);
            var (dec', out) := Decode(dec, p);
            out == Deemphasise(dec.msr, Lpc.Rescaled(Preprocess.Run(enc.pre, s).1)).1 && dec'.v == enc'.u
  {
    hide DecodeSubs, EncodeSubs, ShortTerm.SynthesiseFrom, ShortTerm.AnalyseFrom, ShortTerm.UnclippedFrom, Deemphasise,
         Preprocess.Run, Lpc.Analysis, Lpc.Rescaled, ShortTerm.LarMemory.Next, ShortTerm.LarMemory.FrameCoefs;
    var larc := EncodeShort(enc, s).1;
    ShortTerm.FrameInverse(enc.lar.Next(larc).FrameCoefs(), 0, enc.u, Lpc.Rescaled(Preprocess.Run(enc.pre, s).1));
  }

  ghost function EncodeRun(st: EncState, frames: seq<Samples>): (r: (EncState, seq<FrameParams>))
    requires st.Valid()
    ensures r.0.Valid() && |r.1| == |frames|
    decreases |frames|
  {
    if frames == [] then (st, []) else
      var (st', p) := Encode(st, frames[0]);
      var (st'', ps) := EncodeRun(st', frames[1..]);
      (st'', [p] + ps)
  }

  ghost function DecodeRun(st: DecState, ps: seq<FrameParams>): (r: (DecState, seq<Samples>))
    requires st.Valid()
    ensures r.0.Valid() && |r.1| == |ps|
    decreases |ps|
  {
    if ps == [] then (st, []) else
      var (st', s) := Decode(st, ps[0]);
      var (st'', ss) := DecodeRun(st', ps[1..]);
      (st'', [s] + ss)
  }

  /** Lockstep over runs.  Every prefix of a run is a run, so this holds after every frame. */
  lemma {:induction false} RunInStep(enc: EncState, dec: DecState, frames: seq<Samples>)
    requires InStep(enc, dec)
    ensures var (enc', ps) := EncodeRun(enc, frames);
            InStep(enc', DecodeRun(dec, ps).0)
    decreases |frames|
  {
    if frames != [] {
      FrameInStep(enc, dec, frames[0]);
      var (enc1, p) := Encode(enc, frames[0]);
      RunInStep(enc1, Decode(dec, p).0, frames[1..]);
      var (enc2, ps) := EncodeRun(enc1, frames[1..]);
      assert ([p] + ps)[1..] == ps;
    }
  }

  // ---------------------------------------------------------------- initial states (gsm_create)

  function Zeros(n: nat): (z: seq<word>)
    ensures |z| == n && forall i :: 0 <= i < n ==> z[i] == 0
  {
    seq(n, _ => 0)
  }

  function NoLars(): (m: ShortTerm.LarMemory)
    ensures m.Valid()
  {
    ShortTerm.LarMemory([Zeros(8), Zeros(8)], 0)
  }

  function NewEncoder(): (st: EncState)
    ensures st.Valid()
  {
    EncState(Preprocess.INITIAL, Zeros(8), NoLars(), Zeros(120))
  }

  function NewDecoder(): (st: DecState)
    ensures st.Valid()
  {
    DecState(Zeros(120), 40, Zeros(8), NoLars(), 0)
  }

  /** From newly created codecs, encoder and decoder agree after every run of frames. */
  lemma Lockstep(frames: seq<Samples>)
    ensures var (enc, ps) := EncodeRun(NewEncoder(), frames);
            InStep(enc, DecodeRun(NewDecoder(), ps).0)
  {
    RunInStep(NewEncoder(), NewDecoder(), frames);
  }

  // ---------------------------------------------------------------- struct gsm_state

  /** Memory as memset leaves it. */
  method Cleared(n: nat) returns (a: array<word>)
    ensures fresh(a) && a.Length == n && a[..] == Zeros(n)
  {
    a := new word[n](_ => 0);
    assert a[..] == Zeros(n);
  }

  class Gsm {
    const dp0: array<word>
    const e: array<word>
    const u: array<word>
    const v: array<word>
    /** LARpp[0] and LARpp[1]. */
    const larpp0: array<word>
    const larpp1: array<word>
    var z1: word
    var lz2: longword
    var mp: word
    var j: nat
    var nrp: nat
    var msr: word

    ghost predicate Shaped()
      reads this
    {
      dp0.Length == 280 && e.Length == 50 && u.Length == 8 && v.Length == 9 && larpp0.Length == larpp1.Length == 8 &&
      dp0 != e && dp0 != u && dp0 != v && dp0 != larpp0 && dp0 != larpp1 && e != u && e != v && e != larpp0 &&
      e != larpp1 && u != v && u != larpp0 && u != larpp1 && v != larpp0 && v != larpp1 && larpp0 != larpp1 && j < 2
    }

    ghost predicate ValidEncoder()
      reads this, e
    {
      Shaped() && Preprocess.Inv(Pre()) && Rpe.Guarded(e)
    }

    ghost predicate ValidDecoder()
      reads this
    {
      Shaped() && 40 <= nrp <= 120
    }

    ghost function Pre(): Preprocess.PreState
      reads this
    {
      Preprocess.PreState(z1, lz2, mp)
    }

    ghost function Lar(): (m: ShortTerm.LarMemory)
      requires Shaped()
      reads this, larpp0, larpp1
      ensures m.Valid()
    {
      ShortTerm.LarMemory([larpp0[..], larpp1[..]], j)
    }

    ghost function Encoder(): (st: EncState)
      requires ValidEncoder()
      reads this, dp0, e, u, larpp0, larpp1
      ensures st.Valid()
    {
      EncState(Pre(), u[..], Lar(), dp0[..120])
    }

    ghost function Decoder(): (st: DecState)
      requires ValidDecoder()
      reads this, dp0, v, larpp0, larpp1
      ensures st.Valid()
    {
      DecState(dp0[..120], nrp, v[..8], Lar(), msr)
    }

    /** gsm_create: everything is zero except nrp. */
    constructor ()
      ensures ValidEncoder() && Encoder() == NewEncoder()
      ensures ValidDecoder() && Decoder() == NewDecoder()
      ensures fresh(dp0) && fresh(e) && fresh(u) && fresh(v) && fresh(larpp0) && fresh(larpp1)
    {
      var history := Cleared(280);
      var residual := Cleared(50);
      var analysis := Cleared(8);
      var synthesis := Cleared(9);
      var lars0 := Cleared(8);
      var lars1 := Cleared(8);
      dp0, e, u, v, larpp0, larpp1 := history, residual, analysis, synthesis, lars0, lars1;
      z1, lz2, mp, j, msr := 0, 0, 0, 0, 0;
      nrp := 40;
      new;
      assert dp0[..120] == dp0[..][..120] == Zeros(120);
      assert v[..8] == v[..][..8] == Zeros(8);
      assert forall i :: 0 <= i < 50 ==> e[i] == e[..][i];
    }

    /** Gsm_Short_Term_Analysis_Filter. */
    method ShortTermAnalysisFilter(larc: seq<word>, s: array<word>)
      requires Shaped() && |larc| == 8 && s.Length == 160
      requires s != u && s != larpp0 && s != larpp1
      modifies this`j, u, larpp0, larpp1, s
      ensures Shaped() && Lar() == old(Lar().Next(larc))
      ensures (u[..], s[..]) == old(ShortTerm.AnalyseFrom(Lar().Next(larc).FrameCoefs(), 0, u[..], s[..]))
    {
      ghost var m := Lar().Next(larc);
      var cur := if j == 0 then larpp0 else larpp1;
      var prev := if j == 0 then larpp1 else larpp0;
      j := 1 - j;
      ShortTerm.DecodeLarsInto(larc, cur);
      ShortTerm.AnalyseFrame(prev, cur, u, s, m.FrameCoefs());
    }

    /** Gsm_Short_Term_Synthesis_Filter. */
    method ShortTermSynthesisFilter(larcr: seq<word>, wt: array<word>, s: array<word>)
      requires Shaped() && |larcr| == 8 && wt.Length == s.Length == 160
      requires s != v && s != larpp0 && s != larpp1 && s != wt && wt != v && wt != larpp0 && wt != larpp1
      modifies this`j, v, larpp0, larpp1, s
      ensures Shaped() && Lar() == old(Lar().Next(larcr))
      ensures (v[..8], s[..]) == old(ShortTerm.SynthesiseFrom(Lar().Next(larcr).FrameCoefs(), 0, v[..8], wt[..]))
    {
      ghost var m := Lar().Next(larcr);
      var cur := if j == 0 then larpp0 else larpp1;
      var prev := if j == 0 then larpp1 else larpp0;
      j := 1 - j;
      ShortTerm.DecodeLarsInto(larcr, cur);
      ShortTerm.SynthesiseFrame(prev, cur, v, wt, s, m.FrameCoefs());
    }

    /** The update loop of Gsm_Coder: dp and dpp point to the same cells dp0[base..base+40]. */
    method AddEstimate(base: nat)
      requires Shaped() && 120 <= base && base + 40 <= 280
      modifies dp0
      ensures dp0[base..base + 40] == old(LongTerm.Sum(Rpe.Middle(e), dp0[base..base + 40]))
      ensures dp0[..base] == old(dp0[..base])
    {
      ghost var ep: LongTerm.Segment, dpp: LongTerm.Segment := Rpe.Middle(e), dp0[base..base + 40];
      for i := 0 to 40
        invariant dp0[..base] == old(dp0[..base]) && dp0[base + i..base + 40] == dpp[i..]
        invariant dp0[base..base + i] == LongTerm.Sum(ep, dpp)[..i]
      {
        assert dp0[base + i] == dpp[i..][0] && e[5 + i] == ep[i];
        dp0[base + i] := Add(e[5 + i], dp0[base + i]);
      }
    }

    /** One pass of the sub-segment loop of Gsm_Coder; e+5 holds the residual and then its
        reconstruction. */
    method CodeSub(so: array<word>, k: nat) returns (sub: SubParams)
      requires Shaped() && Rpe.Guarded(e) && so.Length == 160 && so != dp0 && so != e && k < 4
      modifies dp0, e
      ensures Rpe.Guarded(e)
      ensures (LongTerm.Before(dp0, 160 + 40 * k), sub)
              == old(EncodeSub(LongTerm.Before(dp0, 120 + 40 * k), Part(so[..], k)))
    {
      var base := 120 + 40 * k;
      ghost var h, d := LongTerm.Before(dp0, base), Part(so[..], k);
      assert LongTerm.Slice(so, 40 * k) == d;
      var bc, nc := LongTerm.Calculate(so, 40 * k, dp0, base);
      sub := CodeWith(so, k, nc, bc, h, d);
    }

    method CodeWith(so: array<word>, k: nat, nc: nat, bc: nat, ghost h: History, ghost d: LongTerm.Segment)
      returns (sub: SubParams)
      requires Shaped() && Rpe.Guarded(e) && so.Length == 160 && so != dp0 && so != e && k < 4
      requires LongTerm.LtpParams(nc, bc).Valid()
      requires h == LongTerm.Before(dp0, 120 + 40 * k) && d == LongTerm.Slice(so, 40 * k)
      modifies dp0, e
      ensures Rpe.Guarded(e)
      ensures var p := LongTerm.LtpParams(nc, bc);
              var dpp := LongTerm.Estimate(h, p);
              (LongTerm.Before(dp0, 160 + 40 * k), sub) == Local(h, p, dpp, Rpe.Encoded(LongTerm.Residual(d, dpp)))
    {
      hide Rpe.Encoded, Rpe.Decoded;
      var base := 120 + 40 * k;
      ghost var dpp := LongTerm.Estimate(h, LongTerm.LtpParams(nc, bc));
      LongTerm.AnalysisFiltering(bc, nc, dp0, base, so, 40 * k, e);
      assert dp0[base - 120..base] == h;
      assert Rpe.Middle(e) == LongTerm.Residual(d, dpp);
      var xmaxc, mc, xMc := Rpe.Encode(e);
      ghost var ep := Rpe.Middle(e);
      sub := SubFields(nc, bc, mc, xmaxc, xMc[..]);
      AddEstimate(base);
      assert dp0[..base][base - 120..] == h;
      assert LongTerm.Before(dp0, base + 40) == h[40..] + dp0[base..base + 40];
    }

    /** The first three calls of Gsm_Coder. */
    method CodeShort(s: array<word>, so: array<word>) returns (codes: LarCodes)
      requires ValidEncoder() && s.Length == so.Length == 160
      requires s != so && so != dp0 && so != e && so != u && so != larpp0 && so != larpp1
      modifies this`z1, this`lz2, this`mp, this`j, u, larpp0, larpp1, so
      ensures ValidEncoder()
      ensures (Encoder(), codes, so[..]) == old(EncodeShort(Encoder(), s[..]))
    {
      hide Lpc.Analysis, Lpc.Rescaled, Preprocess.Run, ShortTerm.AnalyseFrom, ShortTerm.LarMemory.FrameCoefs,
           ShortTerm.LarMemory.Next;
      var larc := new word[8];
      var pre := Preprocess.Process(Preprocess.PreState(z1, lz2, mp), s, so);
      z1, lz2, mp := pre.z1, pre.lz2, pre.mp;
      ghost var sof := so[..];
      Lpc.Analyse(so, larc);
      codes := larc[..];
      assert (codes, so[..]) == Lpcs(sof);
      ShortTermAnalysisFilter(codes, so);
    }

    /** Gsm_Coder.  The coded parameters are collected in `p`. */
    method Code(s: array<word>) returns (p: FrameParams)
      requires ValidEncoder() && s.Length == 160
      modifies this`z1, this`lz2, this`mp, this`j, dp0, e, u, larpp0, larpp1
      ensures ValidEncoder()
      ensures (Encoder(), p) == old(Encode(Encoder(), s[..]))
    {
      hide EncodeShort, EncodeSubs;
      ghost var st0, s0: Samples := Encoder(), s[..];
      var so := new word[160];
      var codes := CodeShort(s, so);
      ghost var st1, d: Samples := Encoder(), so[..];
      assert (st1, codes, d) == EncodeShort(st0, s0);
      var subs := CodeSubs(so);
      assert Encoder() == st1.(h := dp0[..120]);
      p := FrameParams(codes, subs);
    }

    /** The loop over the four sub-segments and the final memcpy of Gsm_Coder. */
    method CodeSubs(so: array<word>) returns (subs: FourSubs)
      requires Shaped() && Rpe.Guarded(e) && so.Length == 160 && so != dp0 && so != e
      modifies dp0, e
      ensures Rpe.Guarded(e) && (dp0[..120], subs) == old(EncodeSubs(dp0[..120], so[..], 0))
    {
      hide EncodeSub;
      ghost var d: Samples := so[..];
      ghost var all := EncodeSubs(dp0[..120], d, 0);
      var list: seq<SubParams> := [];
      assert LongTerm.Before(dp0, 120) == dp0[..120] && list + all.1 == all.1;
      for k := 0 to 4
        invariant Rpe.Guarded(e) && so[..] == d && |list| == k
        invariant var rest := EncodeSubs(LongTerm.Before(dp0, 120 + 40 * k), d, k);
                  all == (rest.0, list + rest.1)
      {
        EncodeSubsStep(LongTerm.Before(dp0, 120 + 40 * k), d, k, list);
        var sub := CodeSub(so, k);
        list := list + [sub];
      }
      subs := list;
      assert list + [] == list;
      MoveDown();
    }

    /** memcpy(dp0, dp0 + 160, 120 words). */
    method MoveDown()
      requires Shaped()
      modifies dp0
      ensures dp0[..120] == old(dp0[160..280])
    {
      for i := 0 to 120
        invariant forall m :: 0 <= m < i ==> dp0[m] == old(dp0[160 + m])
        invariant forall m :: 120 <= m < 280 ==> dp0[m] == old(dp0[m])
      {
        dp0[i] := dp0[160 + i];
      }
    }

    /** Postprocessing, in place. */
    method Postprocess(s: array<word>)
      requires s.Length == 160
      modifies this`msr, s
      ensures (msr, s[..]) == old(Deemphasise(msr, s[..]))
    {
      hide MultR, Add, Truncated;
      ghost var all, s0 := Deemphasise(msr, s[..]), s[..];
      assert s0[0..] == s0 && s[..0] + all.1 == all.1;
      for k := 0 to 160
        invariant forall i :: k <= i < 160 ==> s[i] == s0[i]
        invariant var rest := Deemphasise(msr, s0[k..]);
                  all == (rest.0, s[..k] + rest.1)
      {
        ghost var done := s[..k];
        DeemphasiseStep(msr, s0, k, done);
        var tmp := MultR(msr, 28180);
        msr := Add(s[k], tmp);
        s[k] := Truncated(Add(msr, msr));
        assert s[..k + 1] == done + [s[k]];
      }
      assert s0[160..] == [] && s[..160] + [] == s[..];
    }

    /** Gsm_Decoder. */
    method DecodeFrame(p: FrameParams, s: array<word>)
      requires ValidDecoder() && s.Length == 160 && s != dp0 && s != v && s != larpp0 && s != larpp1
      modifies this`j, this`nrp, this`msr, dp0, v, larpp0, larpp1, s
      ensures ValidDecoder()
      ensures (Decoder(), s[..]) == old(Decode(Decoder(), p))
    {
      hide DecodeSubs, Deemphasise, ShortTerm.SynthesiseFrom;
      var wt := DecodeParts(p.sub);
      ShortTermSynthesisFilter(p.larc, wt, s);
      Postprocess(s);
    }

    /** The loop over the four sub-segments of Gsm_Decoder. */
    method DecodeParts(sub: FourSubs) returns (wt: array<word>)
      requires ValidDecoder()
      modifies this`nrp, dp0
      ensures ValidDecoder() && fresh(wt) && wt.Length == 160
      ensures (dp0[..120], nrp, wt[..]) == old(DecodeSubs(dp0[..120], nrp, sub, 0))
    {
      hide DecodeSub;
      ghost var all := DecodeSubs(dp0[..120], nrp, sub, 0);
      wt := new word[160];
      var erp, xmcr := new word[40], new word[13];
      assert wt[..0] + all.2 == all.2;
      for jj := 0 to 4
        invariant ValidDecoder()
        invariant var rest := DecodeSubs(dp0[..120], nrp, sub, jj);
                  all == (rest.0, rest.1, wt[..40 * jj] + rest.2)
      {
        ghost var done := wt[..40 * jj];
        DecodeSubsStep(dp0[..120], nrp, sub, jj, done);
        DecodePart(sub[jj], erp, xmcr, wt, 40 * jj);
        assert wt[..40 * (jj + 1)] == done + wt[40 * jj..40 * jj + 40];
      }
      assert wt[..160] + [] == wt[..];
    }

    method DecodePart(p: SubParams, erp: array<word>, xmcr: array<word>, wt: array<word>, start: nat)
      requires ValidDecoder() && erp.Length == 40 && xmcr.Length == 13 && start + 40 <= wt.Length
      requires erp != dp0 && xmcr != dp0 && wt != dp0 && xmcr != erp && wt != erp && wt != xmcr
      modifies this`nrp, dp0, erp, xmcr, wt
      ensures ValidDecoder() && wt[..start] == old(wt[..start])
      ensures var (drp, nr) := old(DecodeSub(dp0[..120], nrp, p));
              nrp == nr && wt[start..start + 40] == drp && dp0[..120] == old(LongTerm.Advance(dp0[..120], drp))
    {
      hide Rpe.Decoded, LongTerm.Reconstruct, LongTerm.Advance, LongTerm.UsedLag;
      assert LongTerm.Before(dp0, 120) == dp0[..120];
      forall i | 0 <= i < 13 {
        xmcr[i] := p.xmc[i];
      }
      assert xmcr[..] == p.xmc;
      Rpe.Decode(p.xmaxc, p.mc, xmcr, erp);
      nrp := LongTerm.SynthesisFiltering(nrp, p.nc, p.bc, erp, dp0);
      ghost var drp := dp0[120..160];
      for k := 0 to 40
        modifies wt
        invariant forall m :: 0 <= m < k ==> wt[start + m] == drp[m]
        invariant wt[..start] == old(wt[..start])
      {
        assert dp0[120 + k] == drp[k];
        wt[start + k] := dp0[120 + k];
      }
    }
  }

  lemma EncodeSubsStep(h: History, d: Samples, k: nat, done: seq<SubParams>)
    requires k < 4
    ensures var rest := EncodeSubs(h, d, k);
            var (h', sub) := EncodeSub(h, Part(d, k));
            var next := EncodeSubs(h', d, k + 1);
            (rest.0, done + rest.1) == (next.0, (done + [sub]) + next.1)
  {
    hide EncodeSub;
    var (h', sub) := EncodeSub(h, Part(d, k));
    var next := EncodeSubs(h', d, k + 1);
    assert done + ([sub] + next.1) == (done + [sub]) + next.1;
  }

  lemma DecodeSubsStep(h: History, nrp: nat, sub: FourSubs, k: nat, done: seq<word>)
    requires 40 <= nrp <= 120 && k < 4
    ensures var rest := DecodeSubs(h, nrp, sub, k);
            var (drp, nr) := DecodeSub(h, nrp, sub[k]);
            var next := DecodeSubs(LongTerm.Advance(h, drp), nr, sub, k + 1);
            (rest.0, rest.1, done + rest.2) == (next.0, next.1, (done + drp) + next.2)
  {
    var (drp, nr) := DecodeSub(h, nrp, sub[k]);
    var next := DecodeSubs(LongTerm.Advance(h, drp), nr, sub, k + 1);
    assert done + (drp + next.2) == (done + drp) + next.2;
  }

  lemma DeemphasiseStep(msr: word, s: seq<word>, k: nat, done: seq<word>)
    requires k < |s|
    ensures var rest := Deemphasise(msr, s[k..]);
            var m := Add(s[k], MultR(msr, 28180));
            var next := Deemphasise(m, s[k + 1..]);
            (rest.0, done + rest.1) == (next.0, (done + [Truncated(Add(m, m))]) + next.1)
  {
    hide MultR, Add, Truncated;
    assert s[k..][1..] == s[k + 1..];
    var m := Add(s[k], MultR(msr, 28180));
    var next := Deemphasise(m, s[k + 1..]);
    assert done + ([Truncated(Add(m, m))] + next.1) == (done + [Truncated(Add(m, m))]) + next.1;
  }
}
