/** g722_encode and g722_decode on the fields of their state structures (g722/g722_encode.c,
  g722/g722_decode.c), proved to compute the functions of G722Codec and G722Stream. */
module G722Program {
  import opened Words
  import opened BitStreams
  import opened G722Band
  import opened G722Quantiser
  import opened G722Codec
  import opened G722Stream

  // ---------------------------------------------------------------- band split filters

  /** The shift of the filter history by two places; the arrays inside the C structures are values. */
  method ShiftWindow(was: Window, a: word, b: word) returns (x: Window)
    ensures x == Shifted(was, a, b)
  {
    x := was;
    for i := 0 to 22
      invariant forall j :: 0 <= j < i ==> x[j] == was[j + 2]
      invariant forall j :: i <= j < 24 ==> x[j] == was[j]
    {
      x := x[i := x[i + 2]];
    }
    x := x[22 := a];
    x := x[23 := b];
  }

  lemma SumsStep(x: Window, i: nat)
    requires i < 12
    ensures SumEven(x, i + 1) == SumEven(x, i) + Times(x[2 * i], QMF[i])
    ensures SumOdd(x, i + 1) == SumOdd(x, i) + Times(x[2 * i + 1], QMF[11 - i])
    ensures MIN_LONGWORD <= SumEven(x, i + 1) <= MAX_LONGWORD && MIN_LONGWORD <= SumOdd(x, i + 1) <= MAX_LONGWORD
  {
    WeightStep(i + 1);
    hide Times;
  }

  /** The two accumulators of both filters; none of them overflows. */
  method Accumulate(x: Window) returns (even: int32, odd: int32)
    ensures (even, odd) == Sums(x)
  {
    even, odd := 0, 0;
    for i := 0 to 12
      invariant even == SumEven(x, i) && odd == SumOdd(x, i)
    {
      SumsStep(x, i);
      hide SumEven, SumOdd, Times;
      even := even + Times(x[2 * i], QMF[i]);
      odd := odd + Times(x[2 * i + 1], QMF[11 - i]);
    }
  }

  // ---------------------------------------------------------------- encoder

  /** struct g722_encode_state. */
  class Encoder {
    const cfg: Config
    const low: BandState
    const high: BandState
    var x: Window
    var outBuffer: nat
    var outBits: nat

    ghost predicate Valid()
      reads this, low, high
    {
      cfg.Valid() && low != high && low.Valid(Low) && high.Valid(High) && Sending(Pending())
    }

    ghost function State(): Core
      requires Valid()
      reads this, low, high
    {
      Core(low.Value(), high.Value(), x)
    }

    ghost function Pending(): Pack
      reads this
    {
      Pack(outBuffer, outBits)
    }

    /** g722_encoder_init. */
    constructor (rate: int, sampleRate8000: bool, packed: bool)
      ensures Valid() && cfg == Init(rate, sampleRate8000, packed) && State() == NewCore() && Pending() == EMPTY
      ensures fresh(low) && fresh(high)
    {
      cfg := Init(rate, sampleRate8000, packed);
      low := new BandState(Low);
      high := new BandState(High);
      x := seq(24, _ => 0);
      outBuffer, outBits := 0, 0;
    }

    method EncodeLow(xlow: int32) returns (ilow: nat)
      requires Valid() && Within(xlow, 25928)
      modifies low
      ensures Valid() && high.Value() == old(high.Value())
      ensures ilow == old(LowCode(Sat(xlow - low.s), low.det)) && ilow < 64
      ensures low.Value() == old(Adapt(Low, low.Value(), ilow / 4))
    {
      var el := Sat(xlow - low.s);
      ilow := QuantiseLow(el, low.det);
      low.AdaptByEncoder(Low, ilow / 4);
    }

    method EncodeHigh(xhigh: int32) returns (ihigh: nat)
      requires Valid() && Within(xhigh, 25928)
      modifies high
      ensures Valid() && low.Value() == old(low.Value())
      ensures ihigh == old(HighCode(Sat(xhigh - high.s), high.det)) && ihigh < 4
      ensures high.Value() == old(Adapt(High, high.Value(), ihigh))
    {
      var eh := Sat(xhigh - high.s);
      ihigh := QuantiseHigh(eh, high.det);
      high.AdaptByEncoder(High, ihigh);
    }

    /** One code from one or two samples. */
    method NextCode(amp: seq<word>) returns (code: nat)
      requires Valid() && |amp| == cfg.STEP
      modifies this`x, low, high
      ensures Valid() && (State(), code) == old(EncodeSample(cfg, State(), amp)) && code < Pow2(cfg.bits)
    {
      hide EncodeSample, Encoder.Valid;
      if cfg.eightK {
        assert amp == [amp[0]];
        code := NarrowCode(amp[0]);
      } else {
        assert amp == [amp[0], amp[1]];
        code := WideCode(amp[0], amp[1]);
      }
    }

    method NarrowCode(a: word) returns (code: nat)
      requires Valid() && cfg.eightK
      modifies low
      ensures Valid() && (State(), code) == old(EncodeSample(cfg, State(), [a])) && code < Pow2(cfg.bits)
    {
      hide Code, Adapt, LowCode, Band.Valid;
      var ilow := EncodeLow(a / 2);
      code := Code(cfg.bits, ilow, 3);
    }

    method WideCode(a: word, b: word) returns (code: nat)
      requires Valid() && !cfg.eightK
      modifies this`x, low, high
      ensures Valid() && (State(), code) == old(EncodeSample(cfg, State(), [a, b])) && code < Pow2(cfg.bits)
    {
      hide Code, Adapt, LowCode, HighCode, Band.Valid, Shifted;
      x := ShiftWindow(x, a, b);
      var even, odd := Accumulate(x);
      var xlow: int32, xhigh: int32 := (odd + even) / 16384, (odd - even) / 16384;
      assert (xlow, xhigh) == Split(x);
      hide Split;
      var ilow := EncodeLow(xlow);
      var ihigh := EncodeHigh(xhigh);
      code := Code(cfg.bits, ilow, ihigh);
    }

    /** Adds a code to the pending bits, and sends a byte when there is one. */
    method PutPacked(code: nat, data: array<byte>, at: nat) returns (n: nat)
      requires at <= data.Length && (outBits + cfg.bits >= 8 ==> at < data.Length)
      modifies this`outBuffer, this`outBits, data
      ensures at <= n <= data.Length && data[..at] == old(data[..at])
      ensures (Pending(), data[at..n]) == old(PackCode(cfg.bits, Pending(), code))
    {
      hide Or, Shl, Shr;
      n := at;
      outBuffer := Or(outBuffer, Shl(code, outBits));
      outBits := outBits + cfg.bits;
      if outBits >= 8 {
        data[n] := outBuffer % 256;
        n := n + 1;
        outBits := outBits - 8;
        outBuffer := Shr(outBuffer, 8);
      }
    }

    /** The output of a code. */
    method Put(code: nat, data: array<byte>, at: nat) returns (n: nat)
      requires Valid() && code < Pow2(cfg.bits)
      requires at + |Emit(cfg, Pending(), [code]).1| <= data.Length
      modifies this`outBuffer, this`outBits, data
      ensures Valid() && at <= n <= data.Length && data[..at] == old(data[..at])
      ensures (Pending(), data[at..n]) == old(Emit(cfg, Pending(), [code]))
    {
      EmitOne(cfg, Pending(), code);
      if cfg.packed {
        hide Emit, PackCode;
        PackCodeKeeps(cfg.bits, Pending(), code);
        n := PutPacked(code, data, at);
      } else {
        hide Emit;
        data[at] := code % 256;
        n := at + 1;
      }
    }

    /** What holds after the loop has consumed `sound` from the state (core0, p0): the state, the
        pending bits and the n bytes written are those of the specification. */
    ghost predicate Produced(core0: Core, p0: Pack, sound: seq<word>, data: array<byte>, n: nat)
      reads this, low, high, data
    {
      Valid() && cfg.Whole(|sound|) && n <= data.Length &&
      (State(), Pending(), data[..n]) == EncodeBytes(cfg, core0, p0, sound)
    }

    /** One pass of the loop, on a step of sound. */
    method Pass(block: seq<word>, data: array<byte>, at: nat, ghost core0: Core, ghost p0: Pack, ghost before: seq<word>)
      returns (n: nat)
      requires Produced(core0, p0, before, data, at) && |block| == cfg.STEP && cfg.Whole(|before + block|)
      requires |EncodeBytes(cfg, core0, p0, before + block).2| <= data.Length
      modifies this`x, this`outBuffer, this`outBits, low, high, data
      ensures Produced(core0, p0, before + block, data, n)
    {
      hide EncodeSample, Config.Whole, Config.Codes, G722Codec.Encode, Emit;
      EncodeBlock(cfg, State(), block);
      EncodeConcat(cfg, core0, before, block);
      ghost var done := G722Codec.Encode(cfg, core0, before).1;
      var code := NextCode(block);
      EmitConcat(cfg, p0, done, [code]);
      ghost var sent := data[..at];
      n := Put(code, data, at);
      assert data[..n] == sent + data[at..n];
    }

    /** g722_encode. */
    method Encode(amp: seq<word>, data: array<byte>) returns (n: nat)
      requires Valid() && cfg.Whole(|amp|)
      requires |EncodeBytes(cfg, State(), Pending(), amp).2| <= data.Length
      modifies this`x, this`outBuffer, this`outBits, low, high, data
      ensures Valid() && n <= data.Length
      ensures (State(), Pending(), data[..n]) == old(EncodeBytes(cfg, State(), Pending(), amp))
    {
      hide Produced, EncodeBytes, Encoder.Valid, Config.Whole, Config.Codes;
      ghost var core0, p0 := State(), Pending();
      n := 0;
      var j := 0;
      NothingProduced(data);
      assert amp[..0] == [];
      while j < |amp|
        invariant 0 <= j <= |amp| && cfg.Whole(j) && Produced(core0, p0, amp[..j], data, n)
        decreases |amp| - j
      {
        StepsGrow(cfg, j, |amp|);
        SliceGrows(amp, j, cfg.STEP);
        BytesGrow(cfg, core0, p0, amp, j + cfg.STEP);
        n := Pass(amp[j..j + cfg.STEP], data, n, core0, p0, amp[..j]);
        j := j + cfg.STEP;
      }
      assert amp[..j] == amp;
      AllProduced(core0, p0, amp, data, n);
    }

    lemma NothingProduced(data: array<byte>)
      requires Valid()
      ensures cfg.Whole(0) && Produced(State(), Pending(), [], data, 0)
    {
      NothingSent(cfg, State(), Pending());
      assert data[..0] == [];
    }

    lemma AllProduced(core0: Core, p0: Pack, sound: seq<word>, data: array<byte>, n: nat)
      requires Produced(core0, p0, sound, data, n)
      ensures Valid() && n <= data.Length && cfg.Whole(|sound|)
      ensures (State(), Pending(), data[..n]) == EncodeBytes(cfg, core0, p0, sound)
    {
    }
  }

  lemma SliceGrows(s: seq<word>, j: nat, k: nat)
    requires j + k <= |s|
    ensures s[..j] + s[j..j + k] == s[..j + k]
  {
  }

  lemma StepsGrow(cfg: Config, j: nat, n: nat)
    requires cfg.Whole(j) && cfg.Whole(n) && j < n
    ensures j + cfg.STEP <= n && cfg.Whole(j + cfg.STEP)
  {
  }

  /** A part of the sound needs no more bytes than all of it. */
  lemma BytesGrow(cfg: Config, core: Core, p: Pack, amp: seq<word>, j: nat)
    requires cfg.Whole(|amp|) && cfg.Whole(j) && j <= |amp|
    ensures |EncodeBytes(cfg, core, p, amp[..j]).2| <= |EncodeBytes(cfg, core, p, amp).2|
  {
    hide EncodeBytes;
    assert amp == amp[..j] + amp[j..];
    EncodeInChunks(cfg, core, p, amp[..j], amp[j..]);
  }

  lemma NothingSent(cfg: Config, core: Core, p: Pack)
    ensures cfg.Whole(0) && EncodeBytes(cfg, core, p, []) == (core, p, [])
  {
  }

  lemma EmitOne(cfg: Config, p: Pack, code: nat)
    ensures Emit(cfg, p, [code]) == if cfg.packed then PackCode(cfg.bits, p, code) else (p, [code % 256])
  {
    hide PackCode;
    assert [code][1..] == [];
    var out := PackCode(cfg.bits, p, code).1;
    assert out + [] == out && [code % 256] + [] == [code % 256];
  }

  // ---------------------------------------------------------------- decoder

  /** struct g722_decode_state. */
  class Decoder {
    const cfg: Config
    const low: BandState
    const high: BandState
    var x: Window
    var inBuffer: nat
    var inBits: nat

    ghost predicate Valid()
      reads this, low, high
    {
      cfg.Valid() && low != high && low.Valid(Low) && high.Valid(High) &&
      (cfg.packed ==> Receiving(cfg.bits, Pending()))
    }

    ghost function State(): Core
      requires Valid()
      reads this, low, high
    {
      Core(low.Value(), high.Value(), x)
    }

    ghost function Pending(): Pack
      reads this
    {
      Pack(inBuffer, inBits)
    }

    /** g722_decoder_init. */
    constructor (rate: int, sampleRate8000: bool, packed: bool)
      ensures Valid() && cfg == Init(rate, sampleRate8000, packed) && State() == NewCore() && Pending() == EMPTY
      ensures fresh(low) && fresh(high)
    {
      cfg := Init(rate, sampleRate8000, packed);
      low := new BandState(Low);
      high := new BandState(High);
      x := seq(24, _ => 0);
      inBuffer, inBits := 0, 0;
    }

    /** The switch on bits_per_sample. */
    method Take(code: nat) returns (ril: nat, ihigh: nat, level: word)
      ensures ril == Ril(cfg.bits, code) && ihigh == HighIndex(cfg.bits, code)
      ensures level == OutputLevel(cfg.bits, LowIndex(cfg.bits, code)) && Within(level, 24808)
    {
      RatePowers(cfg.bits);
      ghost var index := LowIndex(cfg.bits, code);
      OutputLevelRange(index);
      Pow2Values();
      hide And, Pow2;
      var wd1: nat;
      match cfg.bits {
        case 7 =>
          wd1 := And(code, 0x1F);
          ihigh := And(Shr(code, 5), 0x03);
          level := QM5[wd1];
          wd1 := Shr(wd1, 1);
        case 6 =>
          wd1 := And(code, 0x0F);
          ihigh := And(Shr(code, 4), 0x03);
          level := QM4[wd1];
        case _ =>
          wd1 := And(code, 0x3F);
          ihigh := And(Shr(code, 6), 0x03);
          level := QM6[wd1];
          wd1 := Shr(wd1, 2);
      }
      ril := wd1;
    }

    method DecodeLow(ril: nat, level: word) returns (rlow: int32)
      requires Valid() && ril < 16 && Within(level, 24808)
      modifies low
      ensures Valid() && high.Value() == old(high.Value())
      ensures rlow == old(Limit(low.s + Scaled(low.det, level)))
      ensures low.Value() == old(Adapt(Low, low.Value(), ril))
    {
      var wd2: int32 := Scaled(low.det, level);
      rlow := low.s + wd2;
      if rlow > 16383 {
        rlow := 16383;
      } else if rlow < -16384 {
        rlow := -16384;
      }
      low.AdaptByDecoder(Low, ril);
    }

    method DecodeHigh(ihigh: nat) returns (rhigh: int32)
      requires Valid() && ihigh < 4
      modifies high
      ensures Valid() && low.Value() == old(low.Value())
      ensures rhigh == old(HighOutput(high.Value(), ihigh))
      ensures high.Value() == old(Adapt(High, high.Value(), ihigh))
    {
      var dhigh: int32 := Scaled(high.det, Level(High, ihigh));
      rhigh := dhigh + high.s;
      if rhigh > 16383 {
        rhigh := 16383;
      } else if rhigh < -16384 {
        rhigh := -16384;
      }
      high.AdaptByDecoder(High, ihigh);
    }

    /** One or two samples from one code. */
    method Play(code: nat) returns (s: seq<word>)
      requires Valid()
      modifies this`x, low, high
      ensures Valid() && (State(), s) == old(DecodeSample(cfg, State(), code))
    {
      hide Adapt, LowIndex, Ril, HighIndex, OutputLevel, Band.Valid, Scaled, Limit, HighOutput, Shifted;
      var ril, ihigh, level := Take(code);
      var rlow := DecodeLow(ril, level);
      if cfg.eightK {
        s := [2 * rlow];
      } else {
        var rhigh := DecodeHigh(ihigh);
        x := ShiftWindow(x, rlow + rhigh, rlow - rhigh);
        var xout2, xout1 := Accumulate(x);
        s := [ToWord(xout1 / 2048), ToWord(xout2 / 2048)];
      }
    }

    /** A code from the buffer, after loading a byte into it if necessary. */
    method Unpack(data: seq<byte>, j: nat) returns (code: nat, next: nat)
      requires j < |data|
      modifies this`inBuffer, this`inBits
      ensures j <= next <= |data| && (next == j ==> inBits < old(inBits))
      ensures (Pending(), code, data[next..]) == old(UnpackCode(cfg.bits, Pending(), data[j..]))
    {
      hide Or, And, Shl, Shr, Pow2;
      next := j;
      assert data[j..][0] == data[j] && data[j..][1..] == data[j + 1..];
      if inBits < cfg.bits {
        inBuffer := Or(inBuffer, Shl(data[next], inBits));
        next := next + 1;
        inBits := inBits + 8;
      }
      code := And(inBuffer, Pow2(cfg.bits) - 1);
      inBuffer := Shr(inBuffer, cfg.bits);
      inBits := inBits - cfg.bits;
    }

    /** The next code, packed or a byte itself. */
    method Fetch(data: seq<byte>, j: nat) returns (code: nat, next: nat)
      requires Valid() && j < |data|
      modifies this`inBuffer, this`inBits
      ensures Valid() && j <= next <= |data| && (next == j ==> inBits < old(inBits))
      ensures var rest := Collect(cfg, Pending(), data[next..]);
              old(Collect(cfg, Pending(), data[j..])) == (rest.0, [code] + rest.1)
    {
      if cfg.packed {
        hide UnpackCode, Collect;
        UnpackCodeKeeps(cfg.bits, Pending(), data[j..]);
        CollectPacked(cfg, Pending(), data[j..]);
        code, next := Unpack(data, j);
      } else {
        CollectPlain(cfg, Pending(), data, j);
        hide Collect;
        code, next := data[j], j + 1;
      }
    }

    /** What holds when the loop has consumed the input up to j and has found the codes `done`: the
        rest of the codes is still to be found, and the state and the n samples written are those
        of the specification for `done`. */
    ghost predicate Played(core0: Core, p0: Pack, data: seq<byte>, j: nat, done: seq<nat>, amp: array<word>, n: nat)
      reads this, low, high, amp
    {
      Valid() && j <= |data| && n <= amp.Length &&
      (var rest := Collect(cfg, Pending(), data[j..]); Collect(cfg, p0, data) == (rest.0, done + rest.1)) &&
      (State(), amp[..n]) == G722Codec.Decode(cfg, core0, done)
    }

    /** Stores the samples of one code. */
    method Store(s: seq<word>, amp: array<word>, n: nat)
      requires n + |s| <= amp.Length
      modifies amp
      ensures amp[..n + |s|] == old(amp[..n]) + s
    {
      for i := 0 to |s|
        invariant amp[..n + i] == old(amp[..n]) + s[..i]
      {
        amp[n + i] := s[i];
        assert amp[..n + i + 1] == amp[..n + i] + [s[i]];
      }
      assert s[..|s|] == s;
    }

    /** One pass of the loop. */
    method Pass(data: seq<byte>, j: nat, amp: array<word>, n: nat, ghost core0: Core, ghost p0: Pack,
                ghost done: seq<nat>)
      returns (next: nat, m: nat, ghost found: seq<nat>)
      requires Played(core0, p0, data, j, done, amp, n) && j < |data|
      requires |DecodeBytes(cfg, core0, p0, data).2| <= amp.Length
      modifies this`x, this`inBuffer, this`inBits, low, high, amp
      ensures Played(core0, p0, data, next, found, amp, m)
      ensures j <= next <= |data| && (next == j ==> inBits < old(inBits))
    {
      SamplesPerCode(cfg, core0, p0, data);
      hide Collect, G722Codec.Decode, DecodeBytes, Decoder.Valid;
      var code;
      code, next := Fetch(data, j);
      found := done + [code];
      CodesAssociate(code, done, Collect(cfg, Pending(), data[next..]).1);
      MulMono(|found|, |Collect(cfg, p0, data).1|, cfg.STEP);
      m := PlayInto(code, amp, n, core0, done);
    }

    /** The samples of a code, behind those of the codes before it. */
    method PlayInto(code: nat, amp: array<word>, n: nat, ghost core0: Core, ghost done: seq<nat>) returns (m: nat)
      requires Valid() && n <= amp.Length && (State(), amp[..n]) == G722Codec.Decode(cfg, core0, done)
      requires (|done| + 1) * cfg.STEP <= amp.Length
      modifies this`x, low, high, amp
      ensures Valid() && m <= amp.Length && (State(), amp[..m]) == G722Codec.Decode(cfg, core0, done + [code])
    {
      hide Collect, G722Codec.Decode, DecodeSample, Decoder.Valid;
      DecodeBlock(cfg, State(), code);
      DecodeConcat(cfg, core0, done, [code]);
      assert (|done| + 1) * cfg.STEP == n + cfg.STEP;
      var s := Play(code);
      Store(s, amp, n);
      m := n + |s|;
    }

    /** g722_decode. */
    method Decode(data: seq<byte>, amp: array<word>) returns (n: nat)
      requires Valid() && |DecodeBytes(cfg, State(), Pending(), data).2| <= amp.Length
      modifies this`x, this`inBuffer, this`inBits, low, high, amp
      ensures Valid() && n <= amp.Length
      ensures (State(), Pending(), amp[..n]) == old(DecodeBytes(cfg, State(), Pending(), data))
    {
      ghost var core0, p0 := State(), Pending();
      hide Played, Collect, G722Codec.Decode, DecodeBytes, Decoder.Valid;
      ghost var done: seq<nat> := [];
      n := 0;
      var j := 0;
      NothingPlayed(data, amp);
      while j < |data|
        invariant j <= |data| && Played(core0, p0, data, j, done, amp, n)
        decreases |data| - j, inBits
      {
        j, n, done := Pass(data, j, amp, n, core0, p0, done);
      }
      AllPlayed(core0, p0, data, done, amp, n);
    }

    lemma NothingPlayed(data: seq<byte>, amp: array<word>)
      requires Valid()
      ensures Played(State(), Pending(), data, 0, [], amp, 0)
    {
      hide Collect;
      assert data[0..] == data && amp[..0] == [];
      assert [] + Collect(cfg, Pending(), data).1 == Collect(cfg, Pending(), data).1;
    }

    lemma AllPlayed(core0: Core, p0: Pack, data: seq<byte>, done: seq<nat>, amp: array<word>, n: nat)
      requires Played(core0, p0, data, |data|, done, amp, n)
      ensures Valid() && n <= amp.Length
      ensures (State(), Pending(), amp[..n]) == DecodeBytes(cfg, core0, p0, data)
    {
      assert data[|data|..] == [] && done + [] == done;
    }
  }

  lemma SamplesPerCode(cfg: Config, core: Core, p: Pack, data: seq<byte>)
    ensures |DecodeBytes(cfg, core, p, data).2| == |Collect(cfg, p, data).1| * cfg.STEP
  {
    hide Collect, G722Codec.Decode;
  }

  lemma CodesAssociate(code: nat, done: seq<nat>, rest: seq<nat>)
    ensures done + ([code] + rest) == (done + [code]) + rest
  {
  }

  lemma CollectPlain(cfg: Config, p: Pack, data: seq<byte>, j: nat)
    requires !cfg.packed && j < |data|
    ensures Collect(cfg, p, data[j..]) == (Collect(cfg, p, data[j + 1..]).0, [data[j]] + Collect(cfg, p, data[j + 1..]).1)
  {
    assert data[j..][0] == data[j] && data[j..][1..] == data[j + 1..];
  }

  lemma CollectPacked(cfg: Config, p: Pack, bytes: seq<byte>)
    requires cfg.packed && bytes != []
    ensures var (q, code, rest) := UnpackCode(cfg.bits, p, bytes);
            Collect(cfg, p, bytes) == (Collect(cfg, q, rest).0, [code] + Collect(cfg, q, rest).1)
  {
    hide UnpackCode;
  }
}
