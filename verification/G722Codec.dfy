/** The G.722 codec as functions on states: g722_encode and g722_decode, sample by sample and over
  runs, with their lockstep and accuracy.  The byte stream is in G722Stream, the procedures are in
  G722Program. */
module G722Codec {
  import opened Words
  import opened G722Band
  import opened G722Quantiser

  /** What the init functions fix. */
  datatype Config = Config(bits: Rate, eightK: bool, packed: bool) {
    predicate Valid() {
      packed ==> bits != 8
    }
    /** Samples of sound per code. */
    const STEP: nat := if eightK then 1 else 2

    /** g722_encode reads sound in whole steps. */
    predicate Whole(n: nat) {
      eightK || n % 2 == 0
    }

    function Codes(n: nat): nat {
      if eightK then n else n / 2
    }
  }

  lemma WholeStep(cfg: Config, n: nat)
    requires cfg.Whole(n)
    ensures cfg.Codes(0) == 0 && cfg.Whole(0)
    ensures n > 0 ==> n >= cfg.STEP && cfg.Whole(n - cfg.STEP) && cfg.Codes(n) == 1 + cfg.Codes(n - cfg.STEP)
  {
  }

  lemma WholeSum(cfg: Config, m: nat, n: nat)
    requires cfg.Whole(m) && cfg.Whole(n)
    ensures cfg.Whole(m + n)
  {
  }

  /** rate and options as the init functions read them. */
  function Init(rate: int, sampleRate8000: bool, packed: bool): (c: Config)
    ensures c.Valid()
  {
    var bits: Rate := if rate == 48000 then 6 else if rate == 56000 then 7 else 8;
    Config(bits, sampleRate8000, packed && bits != 8)
  }

  type Window = s: seq<word> | |s| == 24 witness seq(24, _ => 0)

  /** Both bands, with their invariants, and the filter history. */
  datatype Core = Core(low: LowBand, high: HighBand, x: Window)

  function NewCore(): Core {
    Core(NewBand(Low), NewBand(High), seq(24, _ => 0))
  }

  // ---------------------------------------------------------------- band split filters

  const QMF: seq<int> := [3, -11, 12, 32, -210, 951, 3876, -805, 362, -156, 53, -11]

  /** Sums of the magnitudes of the first coefficients, from either end. */
  const WEIGHTS: seq<int> := [0, 3, 14, 26, 58, 268, 1219, 5095, 5900, 6262, 6418, 6471, 6482]
  const WEIGHTS_REVERSED: seq<int> := [0, 11, 64, 220, 582, 1387, 5263, 6214, 6424, 6456, 6468, 6479, 6482]

  lemma WeightStep(n: nat)
    requires 1 <= n <= 12
    ensures Within(QMF[n - 1], WEIGHTS[n] - WEIGHTS[n - 1]) && 0 <= WEIGHTS[n] <= 6482
    ensures Within(QMF[12 - n], WEIGHTS_REVERSED[n] - WEIGHTS_REVERSED[n - 1]) && 0 <= WEIGHTS_REVERSED[n] <= 6482
  {
    assert n == 1 || n == 2 || n == 3 || n == 4 || n == 5 || n == 6 || n == 7 || n == 8 || n == 9 || n == 10 ||
           n == 11 || n == 12;
  }

  lemma TapBound(x: word, c: int, w: int)
    requires Within(c, w)
    ensures Within(Times(x, c), 0x8000 * w)
  {
    TimesIsProduct(x, c);
    var y: int := x;
    ProductBound(y, c, 0x8000, w);
  }

  /** The sums over the even and the odd places of the window, after n taps. */
  function SumEven(x: Window, n: nat): (sum: int)
    requires n <= 12
    ensures Within(sum, 0x8000 * WEIGHTS[n])
    decreases n, x
  {
    if n == 0 then 0 else
      WeightStep(n);
      TapBound(x[2 * n - 2], QMF[n - 1], WEIGHTS[n] - WEIGHTS[n - 1]);
      SumEven(x, n - 1) + Times(x[2 * n - 2], QMF[n - 1])
  }

  function SumOdd(x: Window, n: nat): (sum: int)
    requires n <= 12
    ensures Within(sum, 0x8000 * WEIGHTS_REVERSED[n])
    decreases n, x
  {
    if n == 0 then 0 else
      WeightStep(n);
      TapBound(x[2 * n - 1], QMF[12 - n], WEIGHTS_REVERSED[n] - WEIGHTS_REVERSED[n - 1]);
      SumOdd(x, n - 1) + Times(x[2 * n - 1], QMF[12 - n])
  }

  function Sums(x: Window): (r: (int, int))
    ensures Within(r.0, 0x8000 * 6482) && Within(r.1, 0x8000 * 6482)
  {
    var n: nat := 12;
    (SumEven(x, n), SumOdd(x, n))
  }

  function Shifted(x: Window, a: word, b: word): Window {
    x[2..] + [a, b]
  }

  /** Transmit filter: the two bands of a pair of samples. */
  function Split(x: Window): (r: (int, int))
    ensures Within(r.0, 25928) && Within(r.1, 25928)
  {
    var (even, odd) := Sums(x);
    ((odd + even) / 16384, (odd - even) / 16384)
  }

  /** Receive filter; the conversion to 16 bits is not a saturation. */
  function Joined(x: Window): (r: seq<word>)
    ensures |r| == 2
  {
    var (even, odd) := Sums(x);
    [ToWord(odd / 2048), ToWord(even / 2048)]
  }

  // ---------------------------------------------------------------- one code

  /** One pass of the loop of g722_encode: the new state and the code. */
  function EncodeSample(cfg: Config, core: Core, amp: seq<word>): (r: (Core, nat))
    requires |amp| == cfg.STEP
    ensures r.1 < Pow2(cfg.bits)
  {
    if cfg.eightK then
      var ilow := LowCode(Sat(amp[0] / 2 - core.low.s), core.low.det);
      (core.(low := Adapt(Low, core.low, ilow / 4)), Code(cfg.bits, ilow, 3))
    else
      var x := Shifted(core.x, amp[0], amp[1]);
      var (xlow, xhigh) := Split(x);
      var ilow := LowCode(Sat(xlow - core.low.s), core.low.det);
      var ihigh := HighCode(Sat(xhigh - core.high.s), core.high.det);
      (Core(Adapt(Low, core.low, ilow / 4), Adapt(High, core.high, ihigh), x), Code(cfg.bits, ilow, ihigh))
  }

  /** The low-band output of the decoder for a code. */
  function LowOutput(bits: Rate, low: LowBand, code: nat): (rlow: int)
    ensures -16384 <= rlow <= 16383
  {
    Limit(low.s + Scaled(low.det, OutputLevel(bits, LowIndex(bits, code))))
  }

  function HighOutput(high: HighBand, ihigh: nat): (rhigh: int)
    requires ihigh < 4
    ensures -16384 <= rhigh <= 16383
  {
    Limit(Scaled(high.det, Level(High, ihigh)) + high.s)
  }

  /** One pass of the loop of g722_decode: the new state and the samples.  Any number is a code; bits
      above the code are ignored. */
  function DecodeSample(cfg: Config, core: Core, code: nat): (r: (Core, seq<word>))
    ensures |r.1| == cfg.STEP
  {
    var rlow := LowOutput(cfg.bits, core.low, code);
    var low := Adapt(Low, core.low, Ril(cfg.bits, code));
    if cfg.eightK then (core.(low := low), [2 * rlow])
    else
      var ihigh := HighIndex(cfg.bits, code);
      var rhigh := HighOutput(core.high, ihigh);
      var x := Shifted(core.x, rlow + rhigh, rlow - rhigh);
      (Core(low, Adapt(High, core.high, ihigh), x), Joined(x))
  }

  /** What a listener hears of a band is the signal that the predictor goes on from: in the high band,
      and at 48 kbit/s in the low band too, where the decoder has no bits beyond those both sides adapt
      with. */
  lemma OutputIsReconstruction(low: LowBand, high: HighBand, code: nat)
    ensures var ihigh := HighIndex(6, code); HighOutput(high, ihigh) == Limit(Adapt(High, high, ihigh).r1)
    ensures LowOutput(6, low, code) == Limit(Adapt(Low, low, Ril(6, code)).r1)
  {
    hide Scaled, HighIndex, Predict, LowIndex;
    var ihigh := HighIndex(6, code);
    Reconstructed(High, high, ihigh);
    Reconstructed(Low, low, Ril(6, code));
  }

  lemma Reconstructed(k: Kind, band: Band, code: nat)
    requires band.Valid(k) && code < (if k.Low? then 16 else 4)
    ensures Limit(Adapt(k, band, code).r1) == Limit(band.s + Scaled(band.det, Level(k, code)))
  {
    hide Scaled, UpPol2, UpPol1, UpZero, FiltEp, Taps, Level, LogScale, Step, Scale;
  }

  // ---------------------------------------------------------------- runs

  function Encode(cfg: Config, core: Core, amp: seq<word>): (r: (Core, seq<nat>))
    requires cfg.Whole(|amp|)
    ensures |r.1| == cfg.Codes(|amp|)
    decreases |amp|
  {
    hide EncodeSample, Config.Whole, Config.Codes;
    WholeStep(cfg, |amp|);
    if amp == [] then (core, []) else
      var (core1, code) := EncodeSample(cfg, core, amp[..cfg.STEP]);
      var (core2, codes) := Encode(cfg, core1, amp[cfg.STEP..]);
      (core2, [code] + codes)
  }

  function Decode(cfg: Config, core: Core, codes: seq<nat>): (r: (Core, seq<word>))
    ensures |r.1| == |codes| * cfg.STEP
    decreases |codes|
  {
    hide DecodeSample;
    if codes == [] then (core, []) else
      var (core1, s) := DecodeSample(cfg, core, codes[0]);
      var (core2, amp) := Decode(cfg, core1, codes[1..]);
      (core2, s + amp)
  }

  ghost predicate CodesBelow(codes: seq<nat>, limit: nat) {
    forall i :: 0 <= i < |codes| ==> codes[i] < limit
  }

  /** Every code fits the rate. */
  lemma {:induction false} CodesFit(cfg: Config, core: Core, amp: seq<word>)
    requires cfg.Whole(|amp|)
    ensures CodesBelow(Encode(cfg, core, amp).1, Pow2(cfg.bits))
    decreases |amp|
  {
    hide EncodeSample, Config.Whole, Config.Codes, Pow2;
    WholeStep(cfg, |amp|);
    if amp != [] {
      var (core1, code) := EncodeSample(cfg, core, amp[..cfg.STEP]);
      CodesFit(cfg, core1, amp[cfg.STEP..]);
    }
  }

  /** A run behind some codes. */
  function After(codes: seq<nat>, run: (Core, seq<nat>)): (Core, seq<nat>) {
    (run.0, codes + run.1)
  }

  lemma AfterAfter(a: seq<nat>, b: seq<nat>, run: (Core, seq<nat>))
    ensures After(a, After(b, run)) == After(a + b, run)
  {
    assert a + (b + run.1) == (a + b) + run.1;
  }

  /** Encoding and decoding in pieces: any split of the codes, and any split of the sound at a whole
      step, gives the same as one call. */
  lemma {:induction false} EncodeConcat(cfg: Config, core: Core, a: seq<word>, b: seq<word>)
    requires cfg.Whole(|a|) && cfg.Whole(|b|)
    ensures var (core1, codes1) := Encode(cfg, core, a);
            cfg.Whole(|a + b|) && Encode(cfg, core, a + b) == After(codes1, Encode(cfg, core1, b))
    decreases |a|
  {
    hide EncodeSample, Encode, Config.Whole, Config.Codes, After;
    WholeSum(cfg, |a|, |b|);
    if a == [] {
      EncodeNothing(cfg, core);
      assert a + b == b;
      AfterNothing(Encode(cfg, core, b));
    } else {
      var n := cfg.STEP;
      UnfoldEncode(cfg, core, a);
      var rest := a[n..];
      var (core1, code) := EncodeSample(cfg, core, a[..n]);
      EncodeConcat(cfg, core1, rest, b);
      StepOfConcat(cfg, core, a, b);
      var (core2, codes) := Encode(cfg, core1, rest);
      AfterAfter([code], codes, Encode(cfg, core2, b));
      AfterIs([code], (core2, codes));
    }
  }

  lemma StepOfConcat(cfg: Config, core: Core, a: seq<word>, b: seq<word>)
    requires cfg.Whole(|a|) && cfg.Whole(|b|) && a != []
    ensures cfg.STEP <= |a| && cfg.Whole(|a + b|) && cfg.Whole(|a[cfg.STEP..] + b|)
    ensures var (core1, code) := EncodeSample(cfg, core, a[..cfg.STEP]);
            Encode(cfg, core, a + b) == After([code], Encode(cfg, core1, a[cfg.STEP..] + b))
  {
    hide EncodeSample, Encode, Config.Whole, Config.Codes, After;
    WholeSum(cfg, |a|, |b|);
    WholeStep(cfg, |a|);
    UnfoldEncode(cfg, core, a + b);
    var n := cfg.STEP;
    assert (a + b)[..n] == a[..n] && (a + b)[n..] == a[n..] + b;
  }

  lemma AfterNothing(run: (Core, seq<nat>))
    ensures After([], run) == run
  {
    assert [] + run.1 == run.1;
  }

  lemma AfterIs(codes: seq<nat>, run: (Core, seq<nat>))
    ensures After(codes, run) == (run.0, codes + run.1)
  {
  }

  lemma EncodeNothing(cfg: Config, core: Core)
    ensures cfg.Whole(0) && Encode(cfg, core, []) == (core, [])
  {
  }

  /** The first step of a run. */
  lemma UnfoldEncode(cfg: Config, core: Core, amp: seq<word>)
    requires cfg.Whole(|amp|) && amp != []
    ensures cfg.STEP <= |amp| && cfg.Whole(|amp[cfg.STEP..]|)
    ensures var (core1, code) := EncodeSample(cfg, core, amp[..cfg.STEP]);
            Encode(cfg, core, amp) == After([code], Encode(cfg, core1, amp[cfg.STEP..]))
  {
    hide EncodeSample, Config.Whole, Config.Codes;
    WholeStep(cfg, |amp|);
  }

  lemma EncodeBlock(cfg: Config, core: Core, block: seq<word>)
    requires |block| == cfg.STEP
    ensures cfg.Whole(|block|)
    ensures var (core1, code) := EncodeSample(cfg, core, block);
            Encode(cfg, core, block) == (core1, [code])
  {
    hide EncodeSample;
    assert block[..cfg.STEP] == block && block[cfg.STEP..] == [];
    var (core1, code) := EncodeSample(cfg, core, block);
    assert Encode(cfg, core1, block[cfg.STEP..]) == (core1, []);
    assert [code] + [] == [code];
  }

  lemma {:induction false} DecodeConcat(cfg: Config, core: Core, a: seq<nat>, b: seq<nat>)
    ensures var (core1, amp1) := Decode(cfg, core, a);
            var (core2, amp2) := Decode(cfg, core1, b);
            Decode(cfg, core, a + b) == (core2, amp1 + amp2)
    decreases |a|
  {
    hide DecodeSample;
    if a == [] {
      assert a + b == b;
      assert [] + Decode(cfg, core, b).1 == Decode(cfg, core, b).1;
    } else {
      var (core1, s) := DecodeSample(cfg, core, a[0]);
      assert (a + b)[1..] == a[1..] + b;
      DecodeConcat(cfg, core1, a[1..], b);
      var (core2, amp) := Decode(cfg, core1, a[1..]);
      var more := Decode(cfg, core2, b).1;
      assert s + (amp + more) == (s + amp) + more;
    }
  }

  lemma DecodeBlock(cfg: Config, core: Core, code: nat)
    ensures var (core1, s) := DecodeSample(cfg, core, code);
            Decode(cfg, core, [code]) == (core1, s)
  {
    hide DecodeSample;
    var s := DecodeSample(cfg, core, code).1;
    assert [code][1..] == [] && s + [] == s;
  }

  // ---------------------------------------------------------------- lockstep

  /** The decoder's predictor and scale factor are the encoder's: always in the low band, and in the
      high band too when both sides process it. */
  ghost predicate InStep(e: Config, d: Config, enc: Core, dec: Core) {
    enc.low == dec.low && (!e.eightK && !d.eightK ==> enc.high == dec.high)
  }

  lemma SampleInStep(e: Config, d: Config, enc: Core, dec: Core, amp: seq<word>)
    requires InStep(e, d, enc, dec) && e.bits == d.bits && |amp| == e.STEP
    ensures var (enc', code) := EncodeSample(e, enc, amp);
            InStep(e, d, enc', DecodeSample(d, dec, code).0)
  {
    hide Adapt, Code, LowIndex, Ril, HighIndex, LowCode, HighCode, LowOutput, HighOutput, Joined, Split,
         Band.Valid, Shifted, Sat;
    if e.eightK {
      CodeSplits(e.bits, LowCode(Sat(amp[0] / 2 - enc.low.s), enc.low.det), 3);
    } else {
      var (xlow, xhigh) := Split(Shifted(enc.x, amp[0], amp[1]));
      CodeSplits(e.bits, LowCode(Sat(xlow - enc.low.s), enc.low.det), HighCode(Sat(xhigh - enc.high.s), enc.high.det));
    }
  }

  /** Lockstep at every rate and for every combination of narrow and wide band, over every run. */
  lemma {:induction false} RunInStep(e: Config, d: Config, enc: Core, dec: Core, amp: seq<word>)
    requires InStep(e, d, enc, dec) && e.bits == d.bits && e.Whole(|amp|)
    ensures var (enc', codes) := Encode(e, enc, amp);
            InStep(e, d, enc', Decode(d, dec, codes).0)
    decreases |amp|
  {
    hide EncodeSample, DecodeSample, InStep, Config.Whole, Config.Codes;
    WholeStep(e, |amp|);
    if amp != [] {
      var (enc1, code) := EncodeSample(e, enc, amp[..e.STEP]);
      var (dec1, s) := DecodeSample(d, dec, code);
      SampleInStep(e, d, enc, dec, amp[..e.STEP]);
      RunInStep(e, d, enc1, dec1, amp[e.STEP..]);
      var codes := Encode(e, enc1, amp[e.STEP..]).1;
      assert ([code] + codes)[1..] == codes;
    }
  }

  /** From newly initialised codecs. */
  lemma Lockstep(e: Config, d: Config, amp: seq<word>)
    requires e.bits == d.bits && e.Whole(|amp|)
    ensures var (enc, codes) := Encode(e, NewCore(), amp);
            InStep(e, d, enc, Decode(d, NewCore(), codes).0)
  {
    RunInStep(e, d, NewCore(), NewCore(), amp);
  }

  // ---------------------------------------------------------------- accuracy

  /** The input of the low-band quantiser: half the sample, or the output of the transmit filter. */
  function LowInput(e: Config, enc: Core, block: seq<word>): (xlow: int)
    requires |block| == e.STEP
  {
    if e.eightK then block[0] / 2 else Split(Shifted(enc.x, block[0], block[1])).0
  }

  /** The decision cell into which it falls. */
  function LowCell(e: Config, enc: Core, block: seq<word>): (i: nat)
    requires |block| == e.STEP
    ensures 1 <= i <= 30
  {
    Cell(Sat(LowInput(e, enc, block) - enc.low.s), enc.low.det)
  }

  /** A code from an encoder in a given state, as it arrives in the low band of a decoder: unless in
      overload, the output is within the group's width of the limited input. */
  ghost predicate LowAccurate(e: Config, enc: Core, block: seq<word>, low: LowBand, code: nat)
    requires |block| == e.STEP
  {
    var i := LowCell(e, enc, block);
    i < 30 ==>
      Within(LowOutput(e.bits, low, code) - Limit(LowInput(e, enc, block)), Width(enc.low.det, e.bits, i))
  }

  /** At every rate and for every combination of narrow and wide band. */
  lemma LowBandAccuracy(e: Config, d: Config, enc: Core, dec: Core, block: seq<word>)
    requires InStep(e, d, enc, dec) && e.bits == d.bits && |block| == e.STEP
    ensures LowAccurate(e, enc, block, dec.low, EncodeSample(e, enc, block).1)
  {
    hide Adapt, Code, Ril, HighIndex, LowCode, HighCode, Width, Scaled, OutputLevel, Cell, LowIndex, Band.Valid, Split,
         Shifted, Sat, Limit;
    var xlow := LowInput(e, enc, block);
    var el, det := Sat(xlow - enc.low.s), enc.low.det;
    var ihigh := if e.eightK then 3
                 else HighCode(Sat(Split(Shifted(enc.x, block[0], block[1])).1 - enc.high.s), enc.high.det);
    CodeSplits(e.bits, LowCode(el, det), ihigh);
    if Cell(el, det) < 30 {
      SampleAccuracy(e.bits, xlow, enc.low.s, det);
    }
  }

  /** What the encoder sends for a step of sound inside a run. */
  lemma CodeInRun(e: Config, core: Core, a: seq<word>, block: seq<word>, b: seq<word>)
    requires e.Whole(|a|) && e.Whole(|b|) && |block| == e.STEP
    ensures e.Whole(|a + (block + b)|)
    ensures var (enc, before) := Encode(e, core, a);
            var codes := Encode(e, core, a + (block + b)).1;
            |before| < |codes| && codes[..|before|] == before && codes[|before|] == EncodeSample(e, enc, block).1
  {
    hide EncodeSample, Encode, Config.Whole, Config.Codes, After;
    WholeBlock(e, |b|);
    var rest := block + b;
    EncodeConcat(e, core, a, rest);
    var (enc, before) := Encode(e, core, a);
    UnfoldEncode(e, enc, rest);
    var (enc', code) := EncodeSample(e, enc, block);
    assert rest[..e.STEP] == block;
    var more := Encode(e, enc', rest[e.STEP..]);
    AfterIs([code], more);
    AfterIs(before, Encode(e, enc, rest));
    assert (before + ([code] + more.1))[|before|] == code;
  }

  lemma WholeBlock(e: Config, n: nat)
    requires e.Whole(n)
    ensures e.Whole(e.STEP + n)
  {
  }

  /** And over every run: the low band of every code, from newly initialised codecs. */
  lemma RunLowBandAccuracy(e: Config, d: Config, a: seq<word>, block: seq<word>, b: seq<word>)
    requires e.bits == d.bits && e.Whole(|a|) && e.Whole(|b|) && |block| == e.STEP
    ensures e.Whole(|a + (block + b)|)
    ensures var (enc, before) := Encode(e, NewCore(), a);
            var (codes, k) := (Encode(e, NewCore(), a + (block + b)).1, |before|);
            k < |codes| && LowAccurate(e, enc, block, Decode(d, NewCore(), codes[..k]).0.low, codes[k])
  {
    hide EncodeSample, LowAccurate, InStep, NewCore, Encode, Decode, Config.Whole;
    CodeInRun(e, NewCore(), a, block, b);
    var (enc, before) := Encode(e, NewCore(), a);
    Lockstep(e, d, a);
    LowBandAccuracy(e, d, enc, Decode(d, NewCore(), before).0, block);
  }

  /** With both sides in narrow-band mode, at every rate: the output differs from the input by at most
      twice the width of the group of cells, plus one for the bit that the encoder drops. */
  lemma NarrowBandAccuracy(e: Config, d: Config, enc: Core, dec: Core, amp: word)
    requires InStep(e, d, enc, dec) && e.bits == d.bits && e.eightK && d.eightK && LowCell(e, enc, [amp]) < 30
    ensures var code := EncodeSample(e, enc, [amp]).1;
            var xlow, rlow := amp / 2, LowOutput(d.bits, dec.low, code);
            var width := Width(enc.low.det, e.bits, LowCell(e, enc, [amp]));
            Within(rlow - xlow, width) && DecodeSample(d, dec, code).1 == [2 * rlow] &&
            Within(2 * rlow - amp, 2 * width + 1)
  {
    hide Adapt, Code, Ril, HighIndex, LowCode, Width, Scaled, OutputLevel, Cell, LowIndex, Band.Valid;
    LowBandAccuracy(e, d, enc, dec, [amp]);
  }

  /** A narrow-band run of the encoder from its initial state. */
  ghost function NarrowRun(e: Config, amp: seq<word>): (r: (Core, seq<nat>))
    requires e.eightK
    ensures |r.1| == |amp|
  {
    Encode(e, NewCore(), amp)
  }

  /** A sample for an encoder in a given state, as it leaves a decoder: accurate unless in overload. */
  ghost predicate Accurate(e: Config, enc: Core, amp: word, out: word)
    requires e.eightK
  {
    LowCell(e, enc, [amp]) < 30 ==> Within(out - amp, 2 * Width(enc.low.det, e.bits, LowCell(e, enc, [amp])) + 1)
  }

  /** What a narrow-band decoder plays for a code inside a run. */
  lemma SampleInRun(d: Config, codes: seq<nat>, k: nat)
    requires d.eightK && k < |codes|
    ensures var out := Decode(d, NewCore(), codes).1;
            |out| == |codes| && [out[k]] == DecodeSample(d, Decode(d, NewCore(), codes[..k]).0, codes[k]).1
  {
    hide DecodeSample, NewCore;
    assert codes == codes[..k] + codes[k..];
    DecodeConcat(d, NewCore(), codes[..k], codes[k..]);
    var dec := Decode(d, NewCore(), codes[..k]).0;
    var s := DecodeSample(d, dec, codes[k]).1;
    assert Decode(d, dec, codes[k..]).1[0] == s[0];
  }

  /** The same for every sample of every run, from newly initialised codecs. */
  lemma RunAccuracy(e: Config, d: Config, amp: seq<word>, k: nat)
    requires e.bits == d.bits && e.eightK && d.eightK && k < |amp|
    ensures var out := Decode(d, NewCore(), NarrowRun(e, amp).1).1;
            |out| == |amp| && Accurate(e, NarrowRun(e, amp[..k]).0, amp[k], out[k])
  {
    hide EncodeSample, DecodeSample, LowCell, Width, LowOutput, InStep, NewCore, Encode, Decode;
    var (enc, before) := NarrowRun(e, amp[..k]);
    assert amp == amp[..k] + ([amp[k]] + amp[k + 1..]);
    CodeInRun(e, NewCore(), amp[..k], [amp[k]], amp[k + 1..]);
    Lockstep(e, d, amp[..k]);
    var codes := NarrowRun(e, amp).1;
    var dec := Decode(d, NewCore(), before).0;
    SampleInRun(d, codes, k);
    if LowCell(e, enc, [amp[k]]) < 30 {
      NarrowBandAccuracy(e, d, enc, dec, amp[k]);
    }
  }
}
