/** The 16-bit shift register through which the WAV49 packers write and read bit fields
  (gsm/src/gsm_encode.c:108-342, gsm/src/gsm_decode.c:19-249 and the same code in gsm_implode.c and
  gsm_explode.c).

  A writer or reader is set up with a ghost plan, the list of fields that the stream is to hold;
  `n` fields of the plan have passed through the register so far. */
module ShiftRegister {
  import opened Words
  import opened BitStreams

  ghost predicate Short(plan: seq<Field>) {
    AllFit(plan) && forall i :: 0 <= i < |plan| ==> plan[i].width <= 16
  }

  /** Bits of the first n fields. */
  ghost function Upto(plan: seq<Field>, n: nat): seq<bool>
    requires n <= |plan|
  {
    Stream(plan[..n])
  }

  lemma UptoNext(plan: seq<Field>, n: nat)
    requires n < |plan|
    ensures Upto(plan, n + 1) == Upto(plan, n) + Bits(plan[n].value, plan[n].width)
  {
    assert plan[..n + 1] == plan[..n] + [plan[n]];
    StreamAppend(plan[..n], plan[n]);
  }

  // ---------------------------------------------------------------- writing

  /** The register holds the last sixteen bits of the stream so far, preceded by zeros. */
  ghost predicate Window(sr: nat, s: seq<bool>) {
    sr < Pow2(16) && Bits(sr, 16) == (Bits(0, 16) + s)[|s|..]
  }

  /** sr >> w | v << 16 - w moves the window over w more bits. */
  lemma ShiftIn(sr: nat, s: seq<bool>, v: nat, w: nat)
    requires Window(sr, s) && w <= 16 && v < Pow2(w)
    ensures Window(Or(Shr(sr, w), Shl(v, 16 - w)), s + Bits(v, w))
  {
    hide Pow2, Bits, Or, Shl, Shr;
    var low, high := Shr(sr, w), Shl(v, 16 - w);
    ShiftInFits(sr, v, w);
    OrAbove(low, 16 - w, v);
    BitsSplit(sr, w, 16 - w);
    BitsJoin(low, 16 - w, v, w);
    WindowMoves(Bits(0, 16), s, Bits(sr, w), Bits(low, 16 - w), Bits(v, w));
  }

  lemma WindowMoves(zeros: seq<bool>, s: seq<bool>, gone: seq<bool>, kept: seq<bool>, added: seq<bool>)
    requires (zeros + s)[|s|..] == gone + kept && |gone| == |added| && |zeros| == |gone| + |kept|
    ensures (zeros + (s + added))[|s + added|..] == kept + added
  {
    var t := zeros + s;
    assert zeros + (s + added) == t + added;
    assert kept == t[|s|..][|gone|..] == t[|s| + |gone|..];
  }

  lemma ShiftInFits(sr: nat, v: nat, w: nat)
    requires sr < Pow2(16) && w <= 16 && v < Pow2(w)
    ensures Shr(sr, w) < Pow2(16 - w) && Shr(sr, w) + Shl(v, 16 - w) < Pow2(16)
  {
    hide Pow2;
    var m: nat := 16;
    ShrBelow(sr, w, m);
    ShlIsProduct(v, m - w);
    Pow2Add(w, m - w);
    TopBits(v, Pow2(w), Pow2(m - w));
  }

  lemma TopBits(v: nat, p: nat, q: nat)
    requires v < p
    ensures v * q + q <= p * q
  {
    MulMono(v + 1, p, q);
  }

  /** The low w bits of a word. */
  function Cut(v: int, w: nat): (r: nat)
    ensures r < Pow2(w)
  {
    v % Pow2(w)
  }

  lemma CutKept(v: int, w: nat)
    ensures Cut(v, w) == v <==> 0 <= v < Pow2(w)
  {
    hide Pow2;
    if 0 <= v < Pow2(w) {
      CutOfShort(v, w);
    }
  }

  lemma CutOfShort(v: nat, w: nat)
    requires v < Pow2(w)
    ensures Cut(v, w) == v
  {
    hide Pow2;
    DivUnique(v, Pow2(w), 0, v);
  }

  /** A word that does not fit its field, shifted up in sixteen bits, keeps its low bits only. */
  lemma CutShifted(v: int, w: nat)
    requires w <= 16
    ensures Shl(v, 16 - w) % 0x1_0000 == Shl(Cut(v, w), 16 - w)
  {
    hide Pow2, Shl;
    var p, q := Pow2(w), Pow2(16 - w);
    var high, low := v / p, Cut(v, w);
    ShlIsProduct(v, 16 - w);
    ShlIsProduct(low, 16 - w);
    Pow2Add(w, 16 - w);
    Pow2Values();
    TopBits(low, p, q);
    assert v == p * high + low;
    Distributed(p, q, high, low);
    DivUnique(v * q, 0x1_0000, high, low * q);
  }

  lemma Distributed(p: int, q: int, high: int, low: int)
    ensures (p * high + low) * q == p * q * high + low * q
  {
    assert (p * high + low) * q == p * high * q + low * q;
    assert p * high * q == p * q * high;
  }

  /** The low byte of sr >> k is the window's bits k to k + 7. */
  lemma ByteOut(sr: nat, k: nat)
    requires k <= 8
    ensures Bits(Shr(sr, k) % 256, 8) == Bits(sr, 16)[k..k + 8]
  {
    BitsSplit(sr, k, 8);
    BitsSplit(sr, k + 8, 8 - k);
    LowByte(Shr(sr, k));
  }

  lemma LowByte(x: nat)
    ensures Bits(x % 256, 8) == Bits(x, 8)
  {
    Pow2Values();
    var h, l := x / 256, x % 256;
    ShlIsProduct(h, 8);
    BitsJoin(l, 8, h, 0);
  }

  class BitWriter {
    const out: array<byte>
    var pos: nat
    var sr: nat
    ghost const plan: seq<Field>
    ghost var n: nat
    ghost var count: nat

    ghost predicate Valid()
      reads this, out
    {
      pos <= out.Length && n <= |plan| && Short(plan) && count == |Upto(plan, n)| && 8 * pos <= count &&
      Window(sr, Upto(plan, n)) && ByteStream(out[..pos]) == Upto(plan, n)[..8 * pos]
    }

    constructor (out: array<byte>, ghost plan: seq<Field>)
      requires Short(plan)
      ensures Valid() && this.out == out && this.plan == plan && pos == n == count == 0
    {
      this.out, this.pos, this.sr := out, 0, 0;
      this.plan, this.n, this.count := plan, 0, 0;
      new;
      Pow2Values();
      assert Bits(0, 16) + [] == Bits(0, 16) && plan[..0] == [];
    }

    /** Once all bits have left the register, the bytes hold the plan. */
    lemma Complete()
      requires Valid() && n == |plan| && count == 8 * pos
      ensures ByteStream(out[..pos]) == Stream(plan)
    {
      assert plan[..n] == plan;
    }

    /** sr = sr >> w | v << 16 - w, for any v; the register has sixteen bits. */
    method Put(v: int, w: nat)
      requires Valid() && n < |plan| && plan[n] == Field(Cut(v, w), w)
      modifies this`sr, this`n, this`count
      ensures Valid() && n == old(n) + 1 && count == old(count) + w
    {
      hide Shr, Shl, Or, Cut, Bits, Pow2, Upto, ByteStream;
      UptoNext(plan, n);
      ShiftIn(sr, Upto(plan, n), Cut(v, w), w);
      CutShifted(v, w);
      assert Upto(plan, n + 1)[..8 * pos] == Upto(plan, n)[..8 * pos];
      sr := Or(Shr(sr, w), Shl(v, 16 - w) % 0x1_0000);
      n := n + 1;
      count := count + w;
    }

    /** *c++ = sr >> k. */
    method Emit(k: nat)
      requires Valid() && k <= 8 && count + k == 8 * pos + 16 && pos < out.Length
      modifies this`pos, out
      ensures Valid() && pos == old(pos) + 1 && out[..old(pos)] == old(out[..pos])
    {
      hide Shr, Bits, Pow2, Upto, ByteStream;
      ghost var s := Upto(plan, n);
      ByteOut(sr, k);
      var b: byte := Shr(sr, k) % 256;
      assert Bits(sr, 16)[k..k + 8] == s[8 * pos..8 * pos + 8] by {
        assert (Bits(0, 16) + s)[count + k..count + k + 8] == s[8 * pos..8 * pos + 8];
      }
      ByteStreamAppend(out[..pos], b);
      out[pos] := b;
      assert out[..pos + 1] == old(out[..pos]) + [b];
      assert s[..8 * pos + 8] == s[..8 * pos] + s[8 * pos..8 * pos + 8];
      pos := pos + 1;
    }
  }

  // ---------------------------------------------------------------- reading

  /** What is still to be read: `count` bits in the register and the bytes from pos on hold the
      fields of the plan from n on, and then the tail. */
  ghost predicate Ahead(sr: nat, count: nat, bytes: seq<byte>, plan: seq<Field>, tail: seq<bool>) {
    sr < Pow2(count) && Bits(sr, count) + ByteStream(bytes) == Stream(plan) + tail
  }

  lemma LoadByte(sr: nat, count: nat, bytes: seq<byte>, plan: seq<Field>, tail: seq<bool>)
    requires Ahead(sr, count, bytes, plan, tail) && bytes != [] && count <= 8
    ensures Ahead(Or(sr, Shl(bytes[0], count)), count + 8, bytes[1..], plan, tail)
    ensures Or(sr, Shl(bytes[0], count)) < 65536
  {
    hide Pow2, Bits, Or, Shl, Stream, ByteStream;
    var b := bytes[0];
    OrAbove(sr, count, b);
    LoadFits(sr, count, b);
    BitsJoin(sr, count, b, 8);
    assert bytes == [b] + bytes[1..];
    ByteStreamConcat([b], bytes[1..]);
    OneByteStream(b);
    assert Bits(sr, count) + (Bits(b, 8) + ByteStream(bytes[1..]))
        == (Bits(sr, count) + Bits(b, 8)) + ByteStream(bytes[1..]);
  }

  lemma LoadFits(sr: nat, count: nat, b: byte)
    requires sr < Pow2(count) && count <= 8
    ensures sr + Shl(b, count) < Pow2(count + 8) <= 65536
  {
    hide Pow2;
    ShlIsProduct(b, count);
    Pow2Add(8, count);
    Pow2Values();
    TopBits(b, 256, Pow2(count));
    Pow2Increases(count + 8, 16);
  }

  lemma TakeField(sr: nat, count: nat, bytes: seq<byte>, plan: seq<Field>, tail: seq<bool>)
    requires Ahead(sr, count, bytes, plan, tail) && plan != [] && plan[0].Fits() && plan[0].width <= count
    ensures And(sr, Pow2(plan[0].width) - 1) == plan[0].value
    ensures Ahead(Shr(sr, plan[0].width), count - plan[0].width, bytes, plan[1..], tail)
  {
    var v, w := plan[0].value, plan[0].width;
    var more := ByteStream(bytes);
    BitsSplit(sr, w, count - w);
    AndMask(sr, w);
    assert plan == [plan[0]] + plan[1..];
    StreamPrepend(plan[0], plan[1..]);
    var all := Bits(sr, count) + more;
    assert all[..w] == Bits(sr, w) && all[w..] == Bits(Shr(sr, w), count - w) + more;
    assert all[..w] == Bits(v, w) && all[w..] == Stream(plan[1..]) + tail by {
      assert all == Bits(v, w) + (Stream(plan[1..]) + tail);
    }
    BitsInjective(And(sr, Pow2(w) - 1), v, w);
    ShrBelow(sr, w, count);
  }

  class BitReader {
    const data: seq<byte>
    var pos: nat
    var sr: nat
    ghost const plan: seq<Field>
    ghost const tail: seq<bool>
    ghost var n: nat
    ghost var count: nat

    ghost predicate Valid()
      reads this
    {
      pos <= |data| && n <= |plan| && AllFit(plan) && sr < 65536 && Ahead(sr, count, data[pos..], plan[n..], tail)
    }

    /** The register starts with `count` bits left over from the previous frame. */
    constructor (data: seq<byte>, sr: nat, ghost count: nat, ghost plan: seq<Field>, ghost tail: seq<bool>)
      requires AllFit(plan) && sr < 65536 && Ahead(sr, count, data, plan, tail)
      ensures Valid() && this.data == data && this.plan == plan && this.tail == tail
      ensures pos == n == 0 && this.count == count
    {
      this.data, this.pos, this.sr := data, 0, sr;
      this.plan, this.tail, this.n, this.count := plan, tail, 0, count;
      new;
      assert data[0..] == data && plan[0..] == plan;
    }

    /** Once all bytes and all fields are through, the register holds the tail. */
    lemma Complete()
      requires Valid() && n == |plan| && pos == |data|
      ensures sr < Pow2(count) && Bits(sr, count) == tail
    {
      assert data[pos..] == [] && plan[n..] == [];
      assert Bits(sr, count) + ByteStream([]) == Stream([]) + tail;
      assert ByteStream([]) == [] && Stream([]) == [];
      assert Bits(sr, count) + [] == Bits(sr, count) && [] + tail == tail;
    }

    /** sr |= (uword)*c++ << k. */
    method Load(k: nat)
      requires Valid() && count == k && k <= 8 && pos < |data|
      modifies this`pos, this`sr, this`count
      ensures Valid() && pos == old(pos) + 1 && count == k + 8
    {
      LoadByte(sr, count, data[pos..], plan[n..], tail);
      assert data[pos..][1..] == data[pos + 1..];
      sr := Or(sr, Shl(data[pos], k));
      pos := pos + 1;
      count := count + 8;
    }

    /** sr = *c++, which the unpackers write where the register is empty. */
    method Reload()
      requires Valid() && count == 0 && pos < |data|
      modifies this`pos, this`sr, this`count
      ensures Valid() && pos == old(pos) + 1 && count == 8
    {
      LoadByte(sr, count, data[pos..], plan[n..], tail);
      assert data[pos..][1..] == data[pos + 1..];
      assert sr == 0 && Shl(data[pos], 0) == data[pos];
      sr := data[pos];
      pos := pos + 1;
      count := 8;
    }

    /** v = sr & mask; sr >>= w. */
    method Take(w: nat) returns (v: nat)
      requires Valid() && n < |plan| && plan[n].width == w && w <= count
      modifies this`sr, this`n, this`count
      ensures Valid() && n == old(n) + 1 && count == old(count) - w && v == plan[old(n)].value
    {
      hide Shr, And, Pow2, Ahead;
      TakeField(sr, count, data[pos..], plan[n..], tail);
      assert plan[n..][1..] == plan[n + 1..] && plan[n..][0] == plan[n];
      v := And(sr, Pow2(w) - 1);
      ShrIsDivision(sr, w);
      DivBounds(sr, Pow2(w), sr / Pow2(w));
      sr := Shr(sr, w);
      n := n + 1;
      count := count - w;
    }
  }
}
