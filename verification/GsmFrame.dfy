/** The 33-byte format of coded frames, and the coder and decoder joined by it
  (gsm/src/gsm_encode.c:349-448, gsm/src/gsm_decode.c:255-358).  The WAV49 blocks are in WavFrame,
  the same format over one array of 76 parameters is in GsmArray. */
module GsmFrame {
  import opened Words
  import GsmCodec

  type FrameParams = GsmCodec.FrameParams
  type SubParams = GsmCodec.SubParams

  // ---------------------------------------------------------------- the 33-byte format

  const GSM_MAGIC: bv8 := 0xD

  type Frame33 = c: seq<bv8> | |c| == 33 witness seq(33, _ => 0)

  /** Parameters as the bit operations of the packer see them, typed by their field widths. */
  datatype SubBits = SubBits(nc: bv7, bc: bv2, mc: bv2, xmaxc: bv6, xmc: seq<bv3>)

  datatype LarBits = LarBits(l0: bv6, l1: bv6, l2: bv5, l3: bv5, l4: bv4, l5: bv4, l6: bv3, l7: bv3)

  function PackLars(l: LarBits): (c: seq<bv8>)
    ensures |c| == 5
  {
    var l0, l1, l2, l3 := l.l0 as bv8, l.l1 as bv8, l.l2 as bv8, l.l3 as bv8;
    var l4, l5, l6, l7 := l.l4 as bv8, l.l5 as bv8, l.l6 as bv8, l.l7 as bv8;
    [((GSM_MAGIC & 0xF) << 4) | ((l0 >> 2) & 0xF),
     ((l0 & 0x3) << 6) | (l1 & 0x3F),
     ((l2 & 0x1F) << 3) | ((l3 >> 2) & 0x7),
     ((l3 & 0x3) << 6) | ((l4 & 0xF) << 2) | ((l5 >> 2) & 0x3),
     ((l5 & 0x3) << 6) | ((l6 & 0x7) << 3) | (l7 & 0x7)]
  }

  function UnpackLars(c: seq<bv8>): (l: LarBits)
    requires |c| == 5
  {
    LarBits((((c[0] & 0xF) << 2) | ((c[1] >> 6) & 0x3)) as bv6,
            (c[1] & 0x3F) as bv6,
            ((c[2] >> 3) & 0x1F) as bv5,
            (((c[2] & 0x7) << 2) | ((c[3] >> 6) & 0x3)) as bv5,
            ((c[3] >> 2) & 0xF) as bv4,
            (((c[3] & 0x3) << 2) | ((c[4] >> 6) & 0x3)) as bv4,
            ((c[4] >> 3) & 0x7) as bv3,
            (c[4] & 0x7) as bv3)
  }

  function PackSub(s: SubBits): (c: seq<bv8>)
    requires |s.xmc| == 13
    ensures |c| == 7
  {
    var nc, bc, mc, xmaxc := s.nc as bv8, s.bc as bv8, s.mc as bv8, s.xmaxc as bv8;
    [((nc & 0x7F) << 1) | ((bc >> 1) & 0x1),
     ((bc & 0x1) << 7) | ((mc & 0x3) << 5) | ((xmaxc >> 1) & 0x1F),
     ((xmaxc & 0x1) << 7) | ((s.xmc[0] as bv8 & 0x7) << 4) | ((s.xmc[1] as bv8 & 0x7) << 1) | ((s.xmc[2] as bv8 >> 2) & 0x1),
     ((s.xmc[2] as bv8 & 0x3) << 6) | ((s.xmc[3] as bv8 & 0x7) << 3) | (s.xmc[4] as bv8 & 0x7),
     ((s.xmc[5] as bv8 & 0x7) << 5) | ((s.xmc[6] as bv8 & 0x7) << 2) | ((s.xmc[7] as bv8 >> 1) & 0x3),
     ((s.xmc[7] as bv8 & 0x1) << 7) | ((s.xmc[8] as bv8 & 0x7) << 4) | ((s.xmc[9] as bv8 & 0x7) << 1) | ((s.xmc[10] as bv8 >> 2) & 0x1),
     ((s.xmc[10] as bv8 & 0x3) << 6) | ((s.xmc[11] as bv8 & 0x7) << 3) | (s.xmc[12] as bv8 & 0x7)]
  }

  function UnpackSub(c: seq<bv8>): (s: SubBits)
    requires |c| == 7
    ensures |s.xmc| == 13
  {
    SubBits(((c[0] >> 1) & 0x7F) as bv7,
            (((c[0] & 0x1) << 1) | ((c[1] >> 7) & 0x1)) as bv2,
            ((c[1] >> 5) & 0x3) as bv2,
            (((c[1] & 0x1F) << 1) | ((c[2] >> 7) & 0x1)) as bv6,
            [((c[2] >> 4) & 0x7) as bv3, ((c[2] >> 1) & 0x7) as bv3, (((c[2] & 0x1) << 2) | ((c[3] >> 6) & 0x3)) as bv3,
             ((c[3] >> 3) & 0x7) as bv3, (c[3] & 0x7) as bv3,
             ((c[4] >> 5) & 0x7) as bv3, ((c[4] >> 2) & 0x7) as bv3, (((c[4] & 0x3) << 1) | ((c[5] >> 7) & 0x1)) as bv3,
             ((c[5] >> 4) & 0x7) as bv3, ((c[5] >> 1) & 0x7) as bv3, (((c[5] & 0x1) << 2) | ((c[6] >> 6) & 0x3)) as bv3,
             ((c[6] >> 3) & 0x7) as bv3, (c[6] & 0x7) as bv3])
  }

  /** Five bytes and seven bytes as one number, the first one on top. */
  function Number5(c: seq<bv8>): bv64
    requires |c| == 5
  {
    (c[0] as bv64 << 32) | (c[1] as bv64 << 24) | (c[2] as bv64 << 16) | (c[3] as bv64 << 8) | c[4] as bv64
  }

  function Number7(c: seq<bv8>): bv64
    requires |c| == 7
  {
    (c[0] as bv64 << 48) | (c[1] as bv64 << 40) | (c[2] as bv64 << 32) | (c[3] as bv64 << 24) | (c[4] as bv64 << 16) |
    (c[5] as bv64 << 8) | c[6] as bv64
  }

  /** The order of the fields: read as one number, the first five bytes are the magic nibble 13 and
      the log-area ratios one after the other, highest bit first. */
  lemma LarsInOrder(l0: bv6, l1: bv6, l2: bv5, l3: bv5, l4: bv4, l5: bv4, l6: bv3, l7: bv3)
    ensures Number5(PackLars(LarBits(l0, l1, l2, l3, l4, l5, l6, l7))) ==
            0xD0_0000_0000 | (l0 as bv64 << 30) | (l1 as bv64 << 24) | (l2 as bv64 << 19) | (l3 as bv64 << 14) |
            (l4 as bv64 << 10) | (l5 as bv64 << 6) | (l6 as bv64 << 3) | l7 as bv64
  {
  }

  /** And seven bytes are Nc, bc, Mc, xmaxc and xmc[0..13]. */
  lemma SubInOrder(s: SubBits)
    requires |s.xmc| == 13
    ensures var (m, x) := (s.mc as bv64, s.xmc);
            Number7(PackSub(s)) ==
            (s.nc as bv64 << 49) | (s.bc as bv64 << 47) | (m << 45) | (s.xmaxc as bv64 << 39) |
            (x[0] as bv64 << 36) | (x[1] as bv64 << 33) | (x[2] as bv64 << 30) | (x[3] as bv64 << 27) |
            (x[4] as bv64 << 24) | (x[5] as bv64 << 21) | (x[6] as bv64 << 18) | (x[7] as bv64 << 15) |
            (x[8] as bv64 << 12) | (x[9] as bv64 << 9) | (x[10] as bv64 << 6) | (x[11] as bv64 << 3) | x[12] as bv64
  {
  }

  lemma LarsRoundTrip(l: LarBits)
    ensures UnpackLars(PackLars(l)) == l
  {
  }

  lemma LarBytesRoundTrip(c: seq<bv8>)
    requires |c| == 5 && c[0] >> 4 == GSM_MAGIC
    ensures PackLars(UnpackLars(c)) == c
  {
  }

  lemma SubRoundTrip(s: SubBits)
    requires |s.xmc| == 13
    ensures UnpackSub(PackSub(s)) == s
  {
    assert UnpackSub(PackSub(s)).xmc == s.xmc;
  }

  lemma SubBytesRoundTrip(c: seq<bv8>)
    requires |c| == 7
    ensures PackSub(UnpackSub(c)) == c
  {
  }

  // ---------------------------------------------------------------- numbers and bits

  function B2(x: int): (b: bv2)
    requires 0 <= x < 4
    ensures b as int == x
  {
    x as bv2
  }

  function B3(x: int): (b: bv3)
    requires 0 <= x < 8
    ensures b as int == x
  {
    x as bv3
  }

  function B4(x: int): (b: bv4)
    requires 0 <= x < 16
    ensures b as int == x
  {
    x as bv4
  }

  function B5(x: int): (b: bv5)
    requires 0 <= x < 32
    ensures b as int == x
  {
    x as bv5
  }

  function B6(x: int): (b: bv6)
    requires 0 <= x < 64
    ensures b as int == x
  {
    x as bv6
  }

  function B7(x: int): (b: bv7)
    requires 0 <= x < 128
    ensures b as int == x
  {
    x as bv7
  }

  function LarsToBits(l: GsmCodec.LarCodes): (b: LarBits)
    ensures LarsFromBits(b) == l
  {
    LarRanges(l);
    LarBits(B6(l[0]), B6(l[1]), B5(l[2]), B5(l[3]), B4(l[4]), B4(l[5]), B3(l[6]), B3(l[7]))
  }

  lemma LarRanges(l: GsmCodec.LarCodes)
    ensures 0 <= l[0] < 64 && 0 <= l[1] < 64 && 0 <= l[2] < 32 && 0 <= l[3] < 32
    ensures 0 <= l[4] < 16 && 0 <= l[5] < 16 && 0 <= l[6] < 8 && 0 <= l[7] < 8
  {
  }

  function LarsOf(l0: int, l1: int, l2: int, l3: int, l4: int, l5: int, l6: int, l7: int): (l: GsmCodec.LarCodes)
    requires 0 <= l0 < 64 && 0 <= l1 < 64 && 0 <= l2 < 32 && 0 <= l3 < 32
    requires 0 <= l4 < 16 && 0 <= l5 < 16 && 0 <= l6 < 8 && 0 <= l7 < 8
    ensures l == [l0, l1, l2, l3, l4, l5, l6, l7]
  {
    [l0, l1, l2, l3, l4, l5, l6, l7]
  }

  function LarsFromBits(b: LarBits): (l: GsmCodec.LarCodes) {
    LarsOf(b.l0 as int, b.l1 as int, b.l2 as int, b.l3 as int, b.l4 as int, b.l5 as int, b.l6 as int, b.l7 as int)
  }

  function SubToBits(s: SubParams): (b: SubBits)
    ensures |b.xmc| == 13 && SubFromBits(b) == s
  {
    var b := SubBits(B7(s.nc), B2(s.bc), B2(s.mc), B6(s.xmaxc), seq(13, i requires 0 <= i < 13 => B3(s.xmc[i])));
    assert SubFromBits(b).xmc == s.xmc;
    b
  }

  function SubFromBits(b: SubBits): (s: SubParams)
    requires |b.xmc| == 13
  {
    GsmCodec.SubFields(b.nc as int, b.bc as int, b.mc as int, b.xmaxc as int,
                       seq(13, i requires 0 <= i < 13 => b.xmc[i] as int))
  }

  /** Every field holds the parameter of its name. */
  lemma FieldsOfParameters(l: GsmCodec.LarCodes, s: SubParams, i: nat)
    requires i < 13
    ensures var b := LarsToBits(l);
            b.l0 as int == l[0] && b.l1 as int == l[1] && b.l2 as int == l[2] && b.l3 as int == l[3] &&
            b.l4 as int == l[4] && b.l5 as int == l[5] && b.l6 as int == l[6] && b.l7 as int == l[7]
    ensures var b := SubToBits(s);
            b.nc as int == s.nc && b.bc as int == s.bc && b.mc as int == s.mc && b.xmaxc as int == s.xmaxc &&
            b.xmc[i] as int == s.xmc[i]
  {
    hide LarsFromBits;
    LarRanges(l);
  }

  /** Different bit patterns are different parameters. */
  lemma SubBitsUnique(b: SubBits)
    requires |b.xmc| == 13
    ensures SubToBits(SubFromBits(b)) == b
  {
    var c := SubToBits(SubFromBits(b));
    forall i | 0 <= i < 13
      ensures c.xmc[i] == b.xmc[i]
    {
      assert SubFromBits(b).xmc[i] == b.xmc[i] as int;
      assert c.xmc[i] == (b.xmc[i] as int) as bv3;
    }
    assert c.xmc == b.xmc;
  }

  // ---------------------------------------------------------------- frames

  /** gsm_encode, behind the coder. */
  function Pack(p: FrameParams): (c: Frame33) {
    Concatenated(PackLars(LarsToBits(p.larc)), PackSub(SubToBits(p.sub[0])), PackSub(SubToBits(p.sub[1])),
                 PackSub(SubToBits(p.sub[2])), PackSub(SubToBits(p.sub[3])))
  }

  function Concatenated(a: seq<bv8>, b0: seq<bv8>, b1: seq<bv8>, b2: seq<bv8>, b3: seq<bv8>): (c: Frame33)
    requires |a| == 5 && |b0| == |b1| == |b2| == |b3| == 7
  {
    a + b0 + b1 + b2 + b3
  }

  datatype Unpacked = BadMagic | Parameters(p: FrameParams)

  function UnpackSubAt(c: Frame33, i: nat): (s: SubParams)
    requires i + 7 <= 33
  {
    SubFromBits(UnpackSub(c[i..i + 7]))
  }

  /** gsm_decode, before the decoder: -1 for a wrong magic nibble, and otherwise, for any bytes at
      all, parameters that the decoder accepts. */
  function Unpack(c: Frame33): (r: Unpacked) {
    if (c[0] >> 4) & 0x0F != GSM_MAGIC then BadMagic
    else Parameters(GsmCodec.FrameParams(LarsFromBits(UnpackLars(c[..5])),
                                         [UnpackSubAt(c, 5), UnpackSubAt(c, 12), UnpackSubAt(c, 19), UnpackSubAt(c, 26)]))
  }

  lemma Parts(a: seq<bv8>, b0: seq<bv8>, b1: seq<bv8>, b2: seq<bv8>, b3: seq<bv8>)
    requires |a| == 5 && |b0| == |b1| == |b2| == |b3| == 7
    ensures var c := a + b0 + b1 + b2 + b3;
            |c| == 33 && c[..5] == a && c[5..12] == b0 && c[12..19] == b1 && c[19..26] == b2 && c[26..33] == b3
  {
  }

  lemma MagicFirst(l: LarBits)
    ensures (PackLars(l)[0] >> 4) & 0x0F == GSM_MAGIC
  {
  }

  /** Lossless transport: whatever the coder emits comes out of the decoder's parser unchanged. */
  lemma PackThenUnpack(p: FrameParams)
    ensures Unpack(Pack(p)) == Parameters(p)
  {
    hide PackSub, UnpackSub, PackLars, UnpackLars, SubToBits, SubFromBits;
    var l := LarsToBits(p.larc);
    var b0, b1, b2, b3 := SubToBits(p.sub[0]), SubToBits(p.sub[1]), SubToBits(p.sub[2]), SubToBits(p.sub[3]);
    Parts(PackLars(l), PackSub(b0), PackSub(b1), PackSub(b2), PackSub(b3));
    MagicFirst(l);
    LarsRoundTrip(l);
    SubRoundTrip(b0);
    SubRoundTrip(b1);
    SubRoundTrip(b2);
    SubRoundTrip(b3);
    assert Pack(p)[0] == Pack(p)[..5][0];
  }

  lemma LarsUnique(b: LarBits)
    ensures LarsToBits(LarsFromBits(b)) == b
  {
  }

  lemma MagicByte(x: bv8)
    requires (x >> 4) & 0x0F == GSM_MAGIC
    ensures x >> 4 == GSM_MAGIC
  {
  }

  /** And the format has no spare bits: any 33 bytes with the magic nibble are the packing of the
      parameters they are parsed into. */
  lemma UnpackThenPack(c: Frame33)
    requires Unpack(c).Parameters?
    ensures Pack(Unpack(c).p) == c
  {
    hide PackSub, UnpackSub, PackLars, UnpackLars, SubToBits, SubFromBits, LarsToBits, LarsFromBits;
    MagicByte(c[0]);
    LarBytesRoundTrip(c[..5]);
    LarsUnique(UnpackLars(c[..5]));
    SubBytesRoundTrip(c[5..12]);
    SubBytesRoundTrip(c[12..19]);
    SubBytesRoundTrip(c[19..26]);
    SubBytesRoundTrip(c[26..33]);
    SubBitsUnique(UnpackSub(c[5..12]));
    SubBitsUnique(UnpackSub(c[12..19]));
    SubBitsUnique(UnpackSub(c[19..26]));
    SubBitsUnique(UnpackSub(c[26..33]));
    assert c == c[..5] + c[5..12] + c[12..19] + c[19..26] + c[26..33];
  }

  // ---------------------------------------------------------------- gsm_encode and gsm_decode

  datatype Output = Rejected | Played(s: GsmCodec.Samples)

  /** gsm_decode of any 33 bytes: a frame without the magic nibble is rejected and changes nothing;
      every other one is decoded, with no requirement on its contents. */
  function Receive(st: GsmCodec.DecState, c: Frame33): (r: (GsmCodec.DecState, Output))
    requires st.Valid()
    ensures r.0.Valid()
    ensures r.1.Rejected? <==> (c[0] >> 4) & 0x0F != GSM_MAGIC
    ensures r.1.Rejected? ==> r.0 == st
  {
    hide GsmCodec.Decode;
    match Unpack(c)
    case BadMagic => (st, Rejected)
    case Parameters(p) =>
      var (st', s) := GsmCodec.Decode(st, p);
      (st', Played(s))
  }

  ghost function SendAll(st: GsmCodec.EncState, frames: seq<GsmCodec.Samples>)
    : (r: (GsmCodec.EncState, seq<Frame33>))
    requires st.Valid()
    ensures r.0.Valid() && |r.1| == |frames|
    decreases |frames|
  {
    hide GsmCodec.Encode, Pack;
    if frames == [] then (st, []) else
      var (st', p) := GsmCodec.Encode(st, frames[0]);
      var (st'', cs) := SendAll(st', frames[1..]);
      (st'', [Pack(p)] + cs)
  }

  ghost function ReceiveAll(st: GsmCodec.DecState, cs: seq<Frame33>): (r: (GsmCodec.DecState, seq<Output>))
    requires st.Valid()
    ensures r.0.Valid() && |r.1| == |cs|
    decreases |cs|
  {
    hide Receive;
    if cs == [] then (st, []) else
      var (st', o) := Receive(st, cs[0]);
      var (st'', os) := ReceiveAll(st', cs[1..]);
      (st'', [o] + os)
  }

  lemma ReceiveSent(enc: GsmCodec.EncState, dec: GsmCodec.DecState, s: GsmCodec.Samples)
    requires GsmCodec.InStep(enc, dec)
    ensures var (enc', p) := GsmCodec.Encode(enc, s);
            var (dec', o) := Receive(dec, Pack(p));
            GsmCodec.InStep(enc', dec') && o.Played?
  {
    hide GsmCodec.Encode, GsmCodec.Decode, Pack, Unpack;
    GsmCodec.FrameInStep(enc, dec, s);
    PackThenUnpack(GsmCodec.Encode(enc, s).1);
  }

  /** Lockstep through the bit stream: from codecs in step, for every run of frames, no frame
      is rejected and the decoder ends up with the encoder's history and log-area ratios. */
  lemma {:induction false} StreamInStep(enc: GsmCodec.EncState, dec: GsmCodec.DecState, frames: seq<GsmCodec.Samples>)
    requires GsmCodec.InStep(enc, dec)
    ensures var (enc', cs) := SendAll(enc, frames);
            var (dec', os) := ReceiveAll(dec, cs);
            GsmCodec.InStep(enc', dec') && forall i :: 0 <= i < |os| ==> os[i].Played?
    decreases |frames|
  {
    hide GsmCodec.Encode, Receive, Pack;
    if frames != [] {
      var (enc1, p) := GsmCodec.Encode(enc, frames[0]);
      ReceiveSent(enc, dec, frames[0]);
      assert enc1.Valid() && dec.Valid();
      var (dec1, o) := Receive(dec, Pack(p));
      StreamInStep(enc1, dec1, frames[1..]);
      var (enc2, cs) := SendAll(enc1, frames[1..]);
      assert ([Pack(p)] + cs)[1..] == cs;
    }
  }

  /** *c++ for each of some bytes. */
  method PutBytes(c: array<bv8>, at: nat, bytes: seq<bv8>)
    requires at + |bytes| <= c.Length
    modifies c
    ensures c[..at] == old(c[..at]) && c[at..at + |bytes|] == bytes
  {
    for i := 0 to |bytes|
      invariant c[..at] == old(c[..at]) && c[at..at + i] == bytes[..i]
    {
      c[at + i] := bytes[i];
    }
  }

  /** gsm_encode. */
  method Encode(s: GsmCodec.Gsm, source: array<word>, c: array<bv8>)
    requires s.ValidEncoder() && source.Length == 160 && c.Length == 33
    modifies s`z1, s`lz2, s`mp, s`j, s.dp0, s.e, s.u, s.larpp0, s.larpp1, c
    ensures s.ValidEncoder()
    ensures var (st, p) := old(GsmCodec.Encode(s.Encoder(), source[..]));
            s.Encoder() == st && c[..] == Pack(p)
  {
    hide GsmCodec.Encode, PackSub, PackLars, SubToBits, LarsToBits;
    var p := s.Code(source);
    PutBytes(c, 0, PackLars(LarsToBits(p.larc)));
    var done := PackLars(LarsToBits(p.larc));
    for k := 0 to 4
      modifies c
      invariant done == c[..5 + 7 * k] == PackedUpto(p, k)
    {
      var bytes, at := PackSub(SubToBits(p.sub[k])), 5 + 7 * k;
      PutBytes(c, at, bytes);
      done := done + bytes;
      assert c[..at + 7] == c[..at] + c[at..at + 7];
    }
    assert c[..33] == c[..];
    PackedAll(p);
  }

  function PackedUpto(p: FrameParams, k: nat): (c: seq<bv8>)
    requires k <= 4
    decreases k, p
  {
    if k == 0 then PackLars(LarsToBits(p.larc)) else PackedUpto(p, k - 1) + PackSub(SubToBits(p.sub[k - 1]))
  }

  lemma PackedAll(p: FrameParams)
    ensures PackedUpto(p, 4) == Pack(p)
  {
    hide PackSub, PackLars, SubToBits, LarsToBits;
    assert PackedUpto(p, 2) == PackedUpto(p, 1) + PackSub(SubToBits(p.sub[1]));
  }

  /** gsm_decode; the result is -1 for a frame without the magic nibble. */
  method Decode(s: GsmCodec.Gsm, c: array<bv8>, target: array<word>) returns (rc: int)
    requires s.ValidDecoder() && c.Length == 33 && target.Length == 160
    requires target != s.dp0 && target != s.v && target != s.larpp0 && target != s.larpp1
    modifies s`j, s`nrp, s`msr, s.dp0, s.v, s.larpp0, s.larpp1, target
    ensures s.ValidDecoder()
    ensures var (st, o) := old(Receive(s.Decoder(), c[..]));
            s.Decoder() == st && rc == (if o.Rejected? then -1 else 0) && (o.Played? ==> target[..] == o.s)
    ensures rc == -1 ==> target[..] == old(target[..])
  {
    hide GsmCodec.Decode, UnpackSub, UnpackLars;
    if (c[0] >> 4) & 0x0F != GSM_MAGIC {
      return -1;
    }
    var p := Unpack(c[..]).p;
    s.DecodeFrame(p, target);
    return 0;
  }
}
