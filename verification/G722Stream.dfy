/** The byte stream of the G.722 codec: one code a byte, or codes of six or seven bits packed without
  gaps (g722/g722_encode.c:399-413, g722/g722_decode.c:278-293), and the codec from sound to bytes
  and back. */
module G722Stream {
  import opened Words
  import opened BitStreams
  import opened G722Quantiser
  import opened G722Codec

  /** out_buffer and out_bits, or in_buffer and in_bits. */
  datatype Pack = Pack(buffer: nat, count: nat) {
    /** Nothing above the counted bits. */
    ghost predicate Clean() {
      buffer < Pow2(count)
    }
    ghost function Pending(): (b: seq<bool>)
      ensures |b| == count
    {
      Bits(buffer, count)
    }
  }

  /** Between codes the encoder holds less than a byte. */
  ghost predicate Sending(p: Pack) {
    p.Clean() && p.count < 8
  }

  /** Between codes the decoder holds at most one code; of six bits, an even number of bits. */
  ghost predicate Receiving(bits: Rate, p: Pack) {
    p.Clean() && p.count <= bits && (bits == 6 ==> p.count % 2 == 0)
  }

  // ---------------------------------------------------------------- packing

  /** The packed branch of g722_encode. */
  function PackCode(bits: Rate, p: Pack, code: nat): (r: (Pack, seq<byte>)) {
    var buffer, count := Or(p.buffer, Shl(code, p.count)), p.count + bits;
    if count >= 8 then (Pack(Shr(buffer, 8), count - 8), [buffer % 256]) else (Pack(buffer, count), [])
  }

  lemma PackCodeKeeps(bits: Rate, p: Pack, code: nat)
    requires Sending(p) && code < Pow2(bits)
    ensures var (p', out) := PackCode(bits, p, code);
            Sending(p') && p.Pending() + Bits(code, bits) == ByteStream(out) + p'.Pending()
  {
    hide Pow2, Or, Shl, Shr, Bits, ByteStream;
    var n, count := p.count, p.count + bits;
    OrAbove(p.buffer, n, code);
    BitsJoin(p.buffer, n, code, bits);
    var buffer := p.buffer + Shl(code, n);
    JoinFits(p.buffer, n, code, bits);
    if count >= 8 {
      BitsSplit(buffer, 8, count - 8);
      ShiftedOut(buffer, count);
      OneByteStream(buffer % 256);
    } else {
      EmptyBytes();
      assert [] + Bits(buffer, count) == Bits(buffer, count);
    }
  }

  lemma EmptyBytes()
    ensures ByteStream([]) == []
  {
  }

  lemma JoinFits(a: nat, n: nat, b: nat, m: nat)
    requires a < Pow2(n) && b < Pow2(m)
    ensures a + Shl(b, n) < Pow2(n + m)
  {
    hide Shl, Pow2;
    ShlIsProduct(b, n);
    Pow2Add(n, m);
    MulMono(b, Pow2(m) - 1, Pow2(n));
    assert (Pow2(m) - 1) * Pow2(n) == Pow2(n) * Pow2(m) - Pow2(n);
  }

  lemma ShiftedOut(buffer: nat, count: nat)
    requires buffer < Pow2(count) && count >= 8
    ensures Shr(buffer, 8) < Pow2(count - 8) && Bits(buffer % 256, 8) == Bits(buffer, 8)
  {
    hide Bits, Pow2;
    var n: nat := 8;
    Pow2Values();
    ShrIsDivision(buffer, n);
    Pow2Add(n, count - n);
    var h, l := buffer / 256, buffer % 256;
    ShlIsProduct(h, n);
    BitsJoin(l, n, h, 0);
    BitsSplit(buffer, n, 0);
    assert Bits(buffer, n) == Bits(l, n) by {
      assert Bits(h, 0) == [];
    }
  }

  /** The output of the encoder for a list of codes, packed or a byte each. */
  function Emit(cfg: Config, p: Pack, codes: seq<nat>): (r: (Pack, seq<byte>))
    ensures !cfg.packed ==> |r.1| == |codes|
    decreases |codes|
  {
    hide PackCode;
    if codes == [] then (p, [])
    else if cfg.packed then
      var (p1, out) := PackCode(cfg.bits, p, codes[0]);
      var (p2, rest) := Emit(cfg, p1, codes[1..]);
      (p2, out + rest)
    else
      var (p2, rest) := Emit(cfg, p, codes[1..]);
      (p2, [codes[0] % 256] + rest)
  }

  function CodeFields(bits: Rate, codes: seq<nat>): (f: seq<Field>)
    ensures |f| == |codes|
  {
    seq(|codes|, i requires 0 <= i < |codes| => Field(codes[i], bits))
  }

  lemma CodesPrepend(bits: Rate, codes: seq<nat>)
    requires codes != []
    ensures Stream(CodeFields(bits, codes)) == Bits(codes[0], bits) + Stream(CodeFields(bits, codes[1..]))
  {
    assert CodeFields(bits, codes) == [Field(codes[0], bits)] + CodeFields(bits, codes[1..]);
    StreamPrepend(Field(codes[0], bits), CodeFields(bits, codes[1..]));
  }

  lemma EmptyStream(bits: Rate)
    ensures Stream(CodeFields(bits, [])) == []
  {
    assert CodeFields(bits, []) == [];
  }

  /** Packing loses nothing: what was pending and the codes are what was sent and what is pending. */
  lemma {:induction false} EmitKeeps(cfg: Config, p: Pack, codes: seq<nat>)
    requires cfg.packed && Sending(p) && CodesBelow(codes, Pow2(cfg.bits))
    ensures var (p', out) := Emit(cfg, p, codes);
            Sending(p') && p.Pending() + Stream(CodeFields(cfg.bits, codes)) == ByteStream(out) + p'.Pending()
    decreases |codes|
  {
    hide PackCode, Pow2, Stream, ByteStream, Pack.Pending, Sending, CodeFields;
    if codes == [] {
      EmptyStream(cfg.bits);
      EmptyBytes();
      assert p.Pending() + [] == [] + p.Pending();
    } else {
      var (p1, out) := PackCode(cfg.bits, p, codes[0]);
      PackCodeKeeps(cfg.bits, p, codes[0]);
      EmitKeeps(cfg, p1, codes[1..]);
      CodesPrepend(cfg.bits, codes);
      var (p2, rest) := Emit(cfg, p1, codes[1..]);
      ByteStreamConcat(out, rest);
      Regroup(p.Pending(), Bits(codes[0], cfg.bits), Stream(CodeFields(cfg.bits, codes[1..])), ByteStream(out),
              p1.Pending(), ByteStream(rest), p2.Pending());
    }
  }

  lemma Regroup(a: seq<bool>, b: seq<bool>, c: seq<bool>, d: seq<bool>, e: seq<bool>, f: seq<bool>, g: seq<bool>)
    requires a + b == d + e && e + c == f + g
    ensures a + (b + c) == (d + f) + g
  {
    assert a + (b + c) == (a + b) + c == (d + e) + c == d + (e + c) == d + (f + g);
  }

  // ---------------------------------------------------------------- unpacking

  /** The packed branch of g722_decode: a byte is read if the buffer holds less than a code. */
  function UnpackCode(bits: Rate, p: Pack, bytes: seq<byte>): (r: (Pack, nat, seq<byte>))
    requires bytes != []
    ensures |r.2| < |bytes| || (|r.2| == |bytes| && r.0.count < p.count)
  {
    var (q, rest) := if p.count < bits then (Pack(Or(p.buffer, Shl(bytes[0], p.count)), p.count + 8), bytes[1..])
                     else (p, bytes);
    (Pack(Shr(q.buffer, bits), q.count - bits), And(q.buffer, Pow2(bits) - 1), rest)
  }

  lemma UnpackCodeKeeps(bits: Rate, p: Pack, bytes: seq<byte>)
    requires bits < 8 && Receiving(bits, p) && bytes != []
    ensures var (p', code, rest) := UnpackCode(bits, p, bytes);
            Receiving(bits, p') && code < Pow2(bits) &&
            p.Pending() + ByteStream(bytes) == Bits(code, bits) + (p'.Pending() + ByteStream(rest))
  {
    hide Pow2, Or, And, Shl, Shr, Bits, ByteStream;
    var n := p.count;
    if n < bits {
      LoadCode(p, bytes);
      var q := Pack(Or(p.buffer, Shl(bytes[0], n)), n + 8);
      TakeCode(bits, q, bytes[1..]);
    } else {
      TakeCode(bits, p, bytes);
    }
  }

  lemma LoadCode(p: Pack, bytes: seq<byte>)
    requires p.Clean() && bytes != []
    ensures var q := Pack(Or(p.buffer, Shl(bytes[0], p.count)), p.count + 8);
            q.Clean() && p.Pending() + ByteStream(bytes) == q.Pending() + ByteStream(bytes[1..])
  {
    hide Or, Shl, Bits, ByteStream;
    Pow2Values();
    hide Pow2;
    var n, b := p.count, bytes[0];
    OrAbove(p.buffer, n, b);
    BitsJoin(p.buffer, n, b, 8);
    JoinFits(p.buffer, n, b, 8);
    assert bytes == [b] + bytes[1..];
    ByteStreamConcat([b], bytes[1..]);
    OneByteStream(b);
    assert p.Pending() + (Bits(b, 8) + ByteStream(bytes[1..])) == (p.Pending() + Bits(b, 8)) + ByteStream(bytes[1..]);
  }

  lemma TakeCode(bits: Rate, q: Pack, bytes: seq<byte>)
    requires q.Clean() && bits <= q.count
    ensures var p, code := Pack(Shr(q.buffer, bits), q.count - bits), And(q.buffer, Pow2(bits) - 1);
            p.Clean() && code < Pow2(bits) &&
            q.Pending() + ByteStream(bytes) == Bits(code, bits) + (p.Pending() + ByteStream(bytes))
  {
    hide Pow2, And, Shr, Bits, ByteStream;
    BitsSplit(q.buffer, bits, q.count - bits);
    AndMask(q.buffer, bits);
    ShrBelow(q.buffer, bits, q.count);
    var code, p := And(q.buffer, Pow2(bits) - 1), Pack(Shr(q.buffer, bits), q.count - bits);
    assert (Bits(code, bits) + p.Pending()) + ByteStream(bytes) == Bits(code, bits) + (p.Pending() + ByteStream(bytes));
  }

  /** The codes that the decoder takes from its input; its loop ends when all bytes are read, with
      the last code of a stream perhaps still in the buffer. */
  function Collect(cfg: Config, p: Pack, bytes: seq<byte>): (r: (Pack, seq<nat>))
    ensures !cfg.packed ==> |r.1| == |bytes| && r.0 == p
    decreases |bytes|, p.count
  {
    hide UnpackCode;
    if bytes == [] then (p, [])
    else if cfg.packed then
      var (p1, code, rest) := UnpackCode(cfg.bits, p, bytes);
      var (p2, codes) := Collect(cfg, p1, rest);
      (p2, [code] + codes)
    else
      var (p2, codes) := Collect(cfg, p, bytes[1..]);
      (p2, [bytes[0]] + codes)
  }

  /** Unpacking loses nothing, and at most one code is left behind. */
  lemma {:induction false} CollectKeeps(cfg: Config, p: Pack, bytes: seq<byte>)
    requires cfg.packed && cfg.Valid() && Receiving(cfg.bits, p)
    ensures var (p', codes) := Collect(cfg, p, bytes);
            Receiving(cfg.bits, p') && CodesBelow(codes, Pow2(cfg.bits)) &&
            p.Pending() + ByteStream(bytes) == Stream(CodeFields(cfg.bits, codes)) + p'.Pending()
    decreases |bytes|, p.count
  {
    hide UnpackCode, Pow2, Stream, ByteStream, Pack.Pending, Receiving, CodeFields;
    if bytes == [] {
      EmptyStream(cfg.bits);
      EmptyBytes();
      assert p.Pending() + [] == [] + p.Pending();
    } else {
      var (p1, code, rest) := UnpackCode(cfg.bits, p, bytes);
      UnpackCodeKeeps(cfg.bits, p, bytes);
      CollectKeeps(cfg, p1, rest);
      var (p2, codes) := Collect(cfg, p1, rest);
      CodesPrepend(cfg.bits, [code] + codes);
      assert ([code] + codes)[1..] == codes;
      assert Bits(code, cfg.bits) + (Stream(CodeFields(cfg.bits, codes)) + p2.Pending())
          == (Bits(code, cfg.bits) + Stream(CodeFields(cfg.bits, codes))) + p2.Pending();
    }
  }

  // ---------------------------------------------------------------- the packed stream round trip

  const EMPTY: Pack := Pack(0, 0)

  lemma {:induction false} CodesLength(bits: Rate, codes: seq<nat>)
    ensures |Stream(CodeFields(bits, codes))| == bits * |codes|
    decreases |codes|
  {
    if codes == [] {
      EmptyStream(bits);
    } else {
      hide CodeFields;
      CodesPrepend(bits, codes);
      CodesLength(bits, codes[1..]);
      assert bits * |codes| == bits + bits * (|codes| - 1);
    }
  }

  lemma CodesInjective(bits: Rate, a: seq<nat>, b: seq<nat>)
    requires CodeFields(bits, a) == CodeFields(bits, b)
    ensures a == b
  {
    assert |a| == |b|;
    forall i | 0 <= i < |a|
      ensures a[i] == b[i]
    {
      assert CodeFields(bits, a)[i] == CodeFields(bits, b)[i];
    }
  }

  lemma CodesSplitAt(bits: Rate, codes: seq<nat>, k: nat)
    requires k <= |codes|
    ensures Stream(CodeFields(bits, codes)) == Stream(CodeFields(bits, codes[..k])) + Stream(CodeFields(bits, codes[k..]))
  {
    assert CodeFields(bits, codes) == CodeFields(bits, codes[..k]) + CodeFields(bits, codes[k..]);
    StreamConcat(CodeFields(bits, codes[..k]), CodeFields(bits, codes[k..]));
  }

  lemma FieldsFit(bits: Rate, codes: seq<nat>)
    requires CodesBelow(codes, Pow2(bits))
    ensures AllFit(CodeFields(bits, codes))
  {
  }

  lemma CodeWidths(bits: Rate, a: seq<nat>, b: seq<nat>)
    requires |a| == |b|
    ensures SameWidths(CodeFields(bits, a), CodeFields(bits, b))
  {
  }

  /** Two readings of one stream agree as far as both go. */
  lemma PrefixOfStream(bits: Rate, codes: seq<nat>, got: seq<nat>, rest: seq<bool>)
    requires CodesBelow(codes, Pow2(bits)) && CodesBelow(got, Pow2(bits))
    requires Stream(CodeFields(bits, codes)) == Stream(CodeFields(bits, got)) + rest
    ensures got <= codes && bits * (|codes| - |got|) == |rest|
  {
    hide CodeFields, Stream, Pow2, AllFit, SameWidths;
    var k := |got|;
    CodesLength(bits, codes);
    CodesLength(bits, got);
    assert bits * |codes| == bits * k + |rest|;
    assert k <= |codes| by {
      if k > |codes| {
        MulMono(|codes| + 1, k, bits);
      }
    }
    assert bits * (|codes| - k) == bits * |codes| - bits * k;
    CodesSplitAt(bits, codes, k);
    FieldsFit(bits, codes[..k]);
    FieldsFit(bits, got);
    CodeWidths(bits, codes[..k], got);
    StreamPrefixInjective(CodeFields(bits, codes[..k]), CodeFields(bits, got), Stream(CodeFields(bits, codes[k..])), rest);
    CodesInjective(bits, codes[..k], got);
  }

  /** The codes that arrive are the first of those that were sent, and nothing but what the two
      buffers hold is missing: less than a byte on the one side and at most one code on the other. */
  lemma PackedRoundTrip(e: Config, d: Config, codes: seq<nat>)
    requires e.packed && d.packed && d.Valid() && e.bits == d.bits && CodesBelow(codes, Pow2(e.bits))
    ensures var (sent, bytes) := Emit(e, EMPTY, codes);
            var (left, got) := Collect(d, EMPTY, bytes);
            Sending(sent) && Receiving(d.bits, left) && got <= codes &&
            e.bits * (|codes| - |got|) == sent.count + left.count
  {
    NothingPending(d.bits);
    hide CodeFields, Stream, ByteStream, Emit, Collect, Sending, Receiving, Pack.Pending, Pow2;
    var (sent, bytes) := Emit(e, EMPTY, codes);
    var (left, got) := Collect(d, EMPTY, bytes);
    EmitKeeps(e, EMPTY, codes);
    CollectKeeps(d, EMPTY, bytes);
    BothPending(Stream(CodeFields(e.bits, codes)), ByteStream(bytes), sent.Pending(), Stream(CodeFields(e.bits, got)),
                left.Pending());
    PrefixOfStream(e.bits, codes, got, left.Pending() + sent.Pending());
  }

  lemma NothingPending(bits: Rate)
    ensures Sending(EMPTY) && Receiving(bits, EMPTY) && EMPTY.Pending() == []
  {
  }

  lemma BothPending(sent: seq<bool>, bytes: seq<bool>, pending: seq<bool>, got: seq<bool>, left: seq<bool>)
    requires [] + sent == bytes + pending && [] + bytes == got + left
    ensures sent == got + (left + pending)
  {
    assert [] + sent == sent && [] + bytes == bytes;
    assert sent == (got + left) + pending;
  }

  /** Codes of a byte each arrive as they were sent. */
  lemma {:induction false} PlainRoundTrip(e: Config, d: Config, p: Pack, q: Pack, codes: seq<nat>)
    requires !e.packed && !d.packed && CodesBelow(codes, 256)
    ensures Collect(d, q, Emit(e, p, codes).1) == (q, codes)
    decreases |codes|
  {
    if codes != [] {
      PlainRoundTrip(e, d, p, q, codes[1..]);
      var rest := Emit(e, p, codes[1..]).1;
      assert ([codes[0]] + rest)[1..] == rest;
      assert codes == [codes[0]] + codes[1..];
    }
  }

  // ---------------------------------------------------------------- chunks

  lemma {:induction false} EmitConcat(cfg: Config, p: Pack, a: seq<nat>, b: seq<nat>)
    ensures var (p1, out1) := Emit(cfg, p, a);
            var (p2, out2) := Emit(cfg, p1, b);
            Emit(cfg, p, a + b) == (p2, out1 + out2)
    decreases |a|
  {
    hide PackCode;
    if a == [] {
      assert a + b == b;
      assert [] + Emit(cfg, p, b).1 == Emit(cfg, p, b).1;
    } else {
      assert (a + b)[1..] == a[1..] + b;
      var (p1, out) := if cfg.packed then PackCode(cfg.bits, p, a[0]) else (p, [a[0] % 256]);
      EmitConcat(cfg, p1, a[1..], b);
      var (p2, rest) := Emit(cfg, p1, a[1..]);
      var more := Emit(cfg, p2, b).1;
      assert out + (rest + more) == (out + rest) + more;
    }
  }

  /** Whatever the split, and although a call may end with a complete code still in the buffer. */
  lemma {:induction false} CollectConcat(cfg: Config, p: Pack, a: seq<byte>, b: seq<byte>)
    ensures var (p1, codes1) := Collect(cfg, p, a);
            var (p2, codes2) := Collect(cfg, p1, b);
            Collect(cfg, p, a + b) == (p2, codes1 + codes2)
    decreases |a|, p.count
  {
    if a == [] {
      assert a + b == b;
      assert [] + Collect(cfg, p, b).1 == Collect(cfg, p, b).1;
    } else if cfg.packed {
      CollectConcatPacked(cfg, p, a, b);
    } else {
      assert (a + b)[1..] == a[1..] + b;
      CollectConcat(cfg, p, a[1..], b);
      var codes, more := Collect(cfg, p, a[1..]).1, Collect(cfg, p, b).1;
      assert [a[0]] + (codes + more) == ([a[0]] + codes) + more;
    }
  }

  lemma {:induction false} CollectConcatPacked(cfg: Config, p: Pack, a: seq<byte>, b: seq<byte>)
    requires cfg.packed && a != []
    ensures var (p1, codes1) := Collect(cfg, p, a);
            var (p2, codes2) := Collect(cfg, p1, b);
            Collect(cfg, p, a + b) == (p2, codes1 + codes2)
    decreases |a|, p.count, 0
  {
    UnpackAhead(cfg.bits, p, a, b);
    hide UnpackCode;
    var (p1, code, rest) := UnpackCode(cfg.bits, p, a);
    CollectConcat(cfg, p1, rest, b);
    var (p2, codes) := Collect(cfg, p1, rest);
    var more := Collect(cfg, p2, b).1;
    assert [code] + (codes + more) == ([code] + codes) + more;
  }

  lemma UnpackAhead(bits: Rate, p: Pack, a: seq<byte>, b: seq<byte>)
    requires a != []
    ensures var (p1, code, rest) := UnpackCode(bits, p, a);
            UnpackCode(bits, p, a + b) == (p1, code, rest + b)
  {
    assert (a + b)[1..] == a[1..] + b;
  }

  // ---------------------------------------------------------------- from sound to bytes and back

  /** g722_encode. */
  function EncodeBytes(cfg: Config, core: Core, p: Pack, amp: seq<word>): (r: (Core, Pack, seq<byte>))
    requires cfg.Whole(|amp|)
  {
    hide Encode, Emit;
    var (core', codes) := Encode(cfg, core, amp);
    var (p', bytes) := Emit(cfg, p, codes);
    (core', p', bytes)
  }

  /** g722_decode. */
  function DecodeBytes(cfg: Config, core: Core, p: Pack, bytes: seq<byte>): (r: (Core, Pack, seq<word>)) {
    hide Collect, Decode;
    var (p', codes) := Collect(cfg, p, bytes);
    var (core', amp) := Decode(cfg, core, codes);
    (core', p', amp)
  }

  /** One call of g722_encode does what two calls on the parts of its input do. */
  lemma EncodeInChunks(cfg: Config, core: Core, p: Pack, a: seq<word>, b: seq<word>)
    requires cfg.Whole(|a|) && cfg.Whole(|b|)
    ensures var (core1, p1, out1) := EncodeBytes(cfg, core, p, a);
            var (core2, p2, out2) := EncodeBytes(cfg, core1, p1, b);
            cfg.Whole(|a + b|) && EncodeBytes(cfg, core, p, a + b) == (core2, p2, out1 + out2)
  {
    WholeSum(cfg, |a|, |b|);
    hide Encode, Emit, Config.Whole, Config.Codes;
    EncodeConcat(cfg, core, a, b);
    var (core1, codes1) := Encode(cfg, core, a);
    EmitConcat(cfg, p, codes1, Encode(cfg, core1, b).1);
  }

  /** And so it is for g722_decode, for any split. */
  lemma DecodeInChunks(cfg: Config, core: Core, p: Pack, a: seq<byte>, b: seq<byte>)
    ensures var (core1, p1, amp1) := DecodeBytes(cfg, core, p, a);
            var (core2, p2, amp2) := DecodeBytes(cfg, core1, p1, b);
            DecodeBytes(cfg, core, p, a + b) == (core2, p2, amp1 + amp2)
  {
    hide Collect, Decode;
    CollectConcat(cfg, p, a, b);
    var (p1, codes1) := Collect(cfg, p, a);
    DecodeConcat(cfg, core, codes1, Collect(cfg, p1, b).1);
  }

  /** The codes of an encoded run that a decoder has taken from its bytes. */
  ghost function Arrived(e: Config, d: Config, amp: seq<word>): seq<nat>
    requires e.Whole(|amp|)
  {
    Collect(d, EMPTY, EncodeBytes(e, NewCore(), EMPTY, amp).2).1
  }

  lemma Received(e: Config, d: Config, codes: seq<nat>)
    requires e.Valid() && d.Valid() && e.bits == d.bits && e.packed == d.packed && CodesBelow(codes, Pow2(e.bits))
    ensures var (sent, bytes) := Emit(e, EMPTY, codes);
            var (left, got) := Collect(d, EMPTY, bytes);
            got <= codes && e.bits * (|codes| - |got|) == sent.count + left.count &&
            sent.count < 8 && left.count <= d.bits && (!e.packed ==> got == codes)
  {
    if e.packed {
      hide Emit, Collect, Pow2, Pack.Pending, Pack.Clean;
      PackedRoundTrip(e, d, codes);
    } else {
      hide Emit, Collect, Pow2, Pack.Pending, Pack.Clean;
      BelowByte(e.bits, codes);
      PlainRoundTrip(e, d, EMPTY, EMPTY, codes);
      PlainEmit(e, EMPTY, codes);
      assert e.bits * 0 == 0;
    }
  }

  lemma BelowByte(bits: Rate, codes: seq<nat>)
    requires CodesBelow(codes, Pow2(bits))
    ensures CodesBelow(codes, 256)
  {
    RatePowers(bits);
  }

  lemma {:induction false} PlainEmit(e: Config, p: Pack, codes: seq<nat>)
    requires !e.packed
    ensures Emit(e, p, codes).0 == p
    decreases |codes|
  {
    if codes != [] {
      PlainEmit(e, p, codes[1..]);
    }
  }

  /** The first codes of a run are the codes of its beginning. */
  lemma EncodePrefix(cfg: Config, core: Core, amp: seq<word>, n: nat)
    requires cfg.Whole(|amp|) && n <= cfg.Codes(|amp|)
    ensures cfg.STEP * n <= |amp| && cfg.Whole(cfg.STEP * n)
    ensures Encode(cfg, core, amp[..cfg.STEP * n]).1 == Encode(cfg, core, amp).1[..n]
  {
    WholeMultiple(cfg, |amp|, n);
    EncodeBeginning(cfg, core, amp, cfg.STEP * n, n);
  }

  lemma EncodeBeginning(cfg: Config, core: Core, amp: seq<word>, k: nat, n: nat)
    requires k <= |amp| && cfg.Whole(|amp|) && cfg.Whole(k) && cfg.Whole(|amp| - k) && n == cfg.Codes(k)
    ensures n <= |Encode(cfg, core, amp).1| && Encode(cfg, core, amp[..k]).1 == Encode(cfg, core, amp).1[..n]
  {
    hide Encode, Config.Whole, Config.Codes;
    EncodeConcat(cfg, core, amp[..k], amp[k..]);
    assert amp == amp[..k] + amp[k..];
    var (core1, codes1) := Encode(cfg, core, amp[..k]);
    var codes2 := Encode(cfg, core1, amp[k..]).1;
    assert (codes1 + codes2)[..n] == codes1;
  }

  lemma WholeMultiple(cfg: Config, m: nat, n: nat)
    requires cfg.Whole(m) && n <= cfg.Codes(m)
    ensures cfg.STEP * n <= m && cfg.Whole(cfg.STEP * n) && cfg.Whole(m - cfg.STEP * n) && cfg.Codes(cfg.STEP * n) == n
  {
  }

  /** Lockstep through the byte stream: after any run of sound, the decoder has received the first
      codes of the run, all but those that the buffers hold, and its state is that of the encoder
      when it had produced these codes. */
  lemma StreamInStep(e: Config, d: Config, amp: seq<word>)
    requires e.Valid() && d.Valid() && e.bits == d.bits && e.packed == d.packed && e.Whole(|amp|)
    ensures var (_, sent, bytes) := EncodeBytes(e, NewCore(), EMPTY, amp);
            var left := DecodeBytes(d, NewCore(), EMPTY, bytes).1;
            e.bits * (e.Codes(|amp|) - |Arrived(e, d, amp)|) == sent.count + left.count &&
            sent.count < 8 && left.count <= d.bits
    ensures var n := |Arrived(e, d, amp)|;
            var bytes := EncodeBytes(e, NewCore(), EMPTY, amp).2;
            n <= e.Codes(|amp|) && e.STEP * n <= |amp| && e.Whole(e.STEP * n) &&
            InStep(e, d, Encode(e, NewCore(), amp[..e.STEP * n]).0, DecodeBytes(d, NewCore(), EMPTY, bytes).0)
  {
    hide Encode, Emit, Collect, Decode, NewCore, InStep, Config.Whole, Config.Codes;
    var codes := Encode(e, NewCore(), amp).1;
    CodesFit(e, NewCore(), amp);
    Received(e, d, codes);
    var n := |Arrived(e, d, amp)|;
    EncodePrefix(e, NewCore(), amp, n);
    assert codes[..n] == Arrived(e, d, amp);
    Lockstep(e, d, amp[..e.STEP * n]);
  }
}
