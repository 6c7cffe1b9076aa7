/** gsm_encode and gsm_decode of a WAV49 stream: coder and decoder of GsmCodec joined by the blocks of
  WavFrame (gsm/src/gsm_encode.c:106-342, gsm/src/gsm_decode.c:19-249, with wav_fmt set). */
module WavCodec {
  import opened Words
  import opened BitStreams
  import GsmCodec
  import WavFrame

  type Samples = GsmCodec.Samples
  type Wav = WavFrame.Wav

  /** The sound of two frames. */
  datatype Sound = Sound(first: Samples, second: Samples)

  /** Two calls of gsm_encode: 32 bytes and 33 bytes. */
  ghost function SendPair(enc: GsmCodec.EncState, w: Wav, s: Sound): (r: (GsmCodec.EncState, Wav, seq<byte>))
    requires enc.Valid() && w.Valid() && !w.index
    ensures r.0.Valid() && r.1.Valid() && !r.1.index && |r.2| == 65
  {
    hide GsmCodec.Encode, WavFrame.WritePair;
    var (enc1, p) := GsmCodec.Encode(enc, s.first);
    var (enc2, q) := GsmCodec.Encode(enc1, s.second);
    var (w', bytes) := WavFrame.WritePair(w, WavFrame.Pair(p, q));
    (enc2, w', bytes)
  }

  /** Two calls of gsm_decode, for 33 bytes and 32 bytes of any contents. */
  ghost function PlayPair(dec: GsmCodec.DecState, r: Wav, bytes: seq<byte>): (t: (GsmCodec.DecState, Wav, Sound))
    requires dec.Valid() && r.Valid() && !r.index && |bytes| == 65
    ensures t.0.Valid() && t.1.Valid() && !t.1.index
  {
    hide GsmCodec.Decode, WavFrame.ReadPair;
    var (r', ps) := WavFrame.ReadPair(r, bytes);
    var (dec1, a) := GsmCodec.Decode(dec, ps.first);
    var (dec2, b) := GsmCodec.Decode(dec1, ps.second);
    (dec2, r', Sound(a, b))
  }

  ghost function SendAll(enc: GsmCodec.EncState, w: Wav, run: seq<Sound>): (r: (GsmCodec.EncState, seq<byte>))
    requires enc.Valid() && w.Valid() && !w.index
    ensures r.0.Valid() && |r.1| == 65 * |run|
    decreases |run|
  {
    hide SendPair;
    if run == [] then (enc, []) else
      var (enc1, w1, block) := SendPair(enc, w, run[0]);
      var (enc2, bytes) := SendAll(enc1, w1, run[1..]);
      (enc2, block + bytes)
  }

  /** Decodes the first n pairs of a stream. */
  ghost function PlayAll(dec: GsmCodec.DecState, r: Wav, bytes: seq<byte>, n: nat): (t: (GsmCodec.DecState, seq<Sound>))
    requires dec.Valid() && r.Valid() && !r.index && |bytes| >= 65 * n
    ensures t.0.Valid() && |t.1| == n
    decreases n
  {
    hide PlayPair;
    if n == 0 then (dec, []) else
      var (dec1, r1, s) := PlayPair(dec, r, bytes[..65]);
      var (dec2, sound) := PlayAll(dec1, r1, bytes[65..], n - 1);
      (dec2, [s] + sound)
  }

  lemma PairInStep(enc: GsmCodec.EncState, dec: GsmCodec.DecState, w: Wav, r: Wav, s: Sound)
    requires GsmCodec.InStep(enc, dec) && w.Valid() && !w.index && r.Valid() && !r.index
    ensures var (enc', _, bytes) := SendPair(enc, w, s);
            GsmCodec.InStep(enc', PlayPair(dec, r, bytes).0)
  {
    hide GsmCodec.Encode, GsmCodec.Decode, WavFrame.WritePair, WavFrame.ReadPair;
    var (enc1, p) := GsmCodec.Encode(enc, s.first);
    var q := GsmCodec.Encode(enc1, s.second).1;
    WavFrame.PairRoundTrip(w, r, WavFrame.Pair(p, q));
    GsmCodec.FrameInStep(enc, dec, s.first);
    GsmCodec.FrameInStep(enc1, GsmCodec.Decode(dec, p).0, s.second);
  }

  /** Lockstep through the blocks of 32 and 33 bytes: after every run of pairs of frames the decoder
      has the encoder's history and log-area ratios, whatever nibbles the two sides began with. */
  lemma {:induction false} StreamInStep(enc: GsmCodec.EncState, dec: GsmCodec.DecState, w: Wav, r: Wav, run: seq<Sound>)
    requires GsmCodec.InStep(enc, dec) && w.Valid() && !w.index && r.Valid() && !r.index
    ensures var (enc', bytes) := SendAll(enc, w, run);
            GsmCodec.InStep(enc', PlayAll(dec, r, bytes, |run|).0)
    decreases |run|
  {
    hide SendPair, PlayPair, GsmCodec.InStep;
    if run != [] {
      StatesOf(enc, dec);
      var (enc1, w1, block) := SendPair(enc, w, run[0]);
      var (dec1, r1, _) := PlayPair(dec, r, block);
      PairInStep(enc, dec, w, r, run[0]);
      StreamInStep(enc1, dec1, w1, r1, run[1..]);
      var rest := SendAll(enc1, w1, run[1..]).1;
      assert (block + rest)[..65] == block && (block + rest)[65..] == rest;
    }
  }

  lemma StatesOf(enc: GsmCodec.EncState, dec: GsmCodec.DecState)
    requires GsmCodec.InStep(enc, dec)
    ensures enc.Valid() && dec.Valid()
  {
  }

  // ---------------------------------------------------------------- the procedures

  ghost function SendOne(enc: GsmCodec.EncState, w: Wav, s: Samples): (r: (GsmCodec.EncState, Wav, seq<byte>))
    requires enc.Valid() && w.Valid()
    ensures r.0.Valid() && r.1.Valid() && r.1.index == !w.index && |r.2| == (if w.index then 33 else 32)
  {
    hide GsmCodec.Encode, WavFrame.Write;
    var (enc', p) := GsmCodec.Encode(enc, s);
    var (w', bytes) := WavFrame.Write(w, p);
    (enc', w', bytes)
  }

  ghost function PlayOne(dec: GsmCodec.DecState, r: Wav, c: seq<byte>): (t: (GsmCodec.DecState, Wav, Samples))
    requires dec.Valid() && r.Valid() && |c| == (if r.index then 32 else 33)
    ensures t.0.Valid() && t.1.Valid() && t.1.index == !r.index
  {
    hide GsmCodec.Decode, WavFrame.Read;
    var (r', p) := WavFrame.Read(r, c);
    var (dec', s) := GsmCodec.Decode(dec, p);
    (dec', r', s)
  }

  /** The pairs above are two calls each. */
  lemma PairIsTwoCalls(enc: GsmCodec.EncState, w: Wav, s: Sound)
    requires enc.Valid() && w.Valid() && !w.index
    ensures var (enc1, w1, b1) := SendOne(enc, w, s.first);
            var (enc2, w2, b2) := SendOne(enc1, w1, s.second);
            SendPair(enc, w, s) == (enc2, w2, b1 + b2)
  {
    hide GsmCodec.Encode, WavFrame.Write;
  }

  lemma PlayedPairIsTwoCalls(dec: GsmCodec.DecState, r: Wav, bytes: seq<byte>)
    requires dec.Valid() && r.Valid() && !r.index && |bytes| == 65
    ensures var (dec1, r1, a) := PlayOne(dec, r, bytes[..33]);
            var (dec2, r2, b) := PlayOne(dec1, r1, bytes[33..]);
            PlayPair(dec, r, bytes) == (dec2, r2, Sound(a, b))
  {
    hide GsmCodec.Decode, WavFrame.Read;
  }

  /** gsm_encode; the packer holds frame_index and frame_chain of struct gsm_state. */
  method Encode(s: GsmCodec.Gsm, k: WavFrame.Packer, source: array<word>, c: array<byte>)
    requires s.ValidEncoder() && k.State().Valid() && source.Length == 160 && c.Length == 33
    modifies s`z1, s`lz2, s`mp, s`j, s.dp0, s.e, s.u, s.larpp0, s.larpp1, k, c
    ensures s.ValidEncoder() && k.State().Valid()
    ensures var (enc, w, bytes) := old(SendOne(s.Encoder(), k.State(), source[..]));
            s.Encoder() == enc && k.State() == w && c[..|bytes|] == bytes
  {
    hide GsmCodec.Encode, WavFrame.Write;
    var p := s.Code(source);
    k.Encode(p, c);
  }

  /** gsm_decode. */
  method Decode(s: GsmCodec.Gsm, k: WavFrame.Packer, c: seq<byte>, target: array<word>)
    requires s.ValidDecoder() && k.State().Valid() && |c| == (if k.frameIndex then 32 else 33) && target.Length == 160
    requires target != s.dp0 && target != s.v && target != s.larpp0 && target != s.larpp1
    modifies s`j, s`nrp, s`msr, s.dp0, s.v, s.larpp0, s.larpp1, k, target
    ensures s.ValidDecoder() && k.State().Valid()
    ensures (s.Decoder(), k.State(), target[..]) == old(PlayOne(s.Decoder(), k.State(), c))
  {
    hide GsmCodec.Decode, WavFrame.Read;
    var p := k.Decode(c);
    s.DecodeFrame(p, target);
  }
}
