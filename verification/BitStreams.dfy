/** Bit streams, least significant bit first.

  Every packer of the repository that uses a shift register writes a list of fields, each a value
  with a width, into bytes.  What such a packer promises is stated on streams: the bits of the
  bytes are the bits of the fields. */
module BitStreams {
  import opened Words

  /** The n low bits of x, least significant first. */
  function Bits(x: nat, n: nat): (b: seq<bool>)
    ensures |b| == n
    decreases n, x
  {
    if n == 0 then [] else [x % 2 == 1] + Bits(x / 2, n - 1)
  }

  /** A value that is transmitted in `width` bits. */
  datatype Field = Field(value: nat, width: nat) {
    predicate Fits() {
      value < Pow2(width)
    }
  }

  function Stream(fields: seq<Field>): (b: seq<bool>)
    decreases |fields|
  {
    if fields == [] then [] else
      var last := |fields| - 1;
      Stream(fields[..last]) + Bits(fields[last].value, fields[last].width)
  }

  function AsFields(bytes: seq<byte>): (fields: seq<Field>)
    ensures |fields| == |bytes|
  {
    seq(|bytes|, i requires 0 <= i < |bytes| => Field(bytes[i], 8))
  }

  function ByteStream(bytes: seq<byte>): seq<bool> {
    Stream(AsFields(bytes))
  }

  // ---------------------------------------------------------------- bits of one number

  /** A number splits into its low and its high bits. */
  lemma {:induction false} BitsSplit(x: nat, n: nat, m: nat)
    ensures Bits(x, n + m) == Bits(x, n) + Bits(Shr(x, n), m)
    decreases n
  {
    if n > 0 {
      BitsSplit(x / 2, n - 1, m);
    }
  }

  lemma ShlDoubles(b: int, n: nat)
    requires n > 0
    ensures Shl(b, n) == 2 * Shl(b, n - 1)
  {
    ShlIsProduct(b, n - 1);
    ShlIsProduct(b, n);
    assert b * (2 * Pow2(n - 1)) == 2 * (b * Pow2(n - 1));
  }

  lemma {:induction false} BitsJoin(a: nat, n: nat, b: nat, m: nat)
    requires a < Pow2(n)
    ensures Bits(a + Shl(b, n), n + m) == Bits(a, n) + Bits(b, m)
    decreases n
  {
    if n > 0 {
      ShlDoubles(b, n);
      var x := a + Shl(b, n);
      assert x / 2 == a / 2 + Shl(b, n - 1) && x % 2 == a % 2;
      BitsJoin(a / 2, n - 1, b, m);
    }
  }

  lemma {:induction false} BitsInjective(x: nat, y: nat, n: nat)
    requires x < Pow2(n) && y < Pow2(n) && Bits(x, n) == Bits(y, n)
    ensures x == y
    decreases n
  {
    if n > 0 {
      assert Bits(x, n)[0] == Bits(y, n)[0];
      assert Bits(x, n)[1..] == Bits(x / 2, n - 1) && Bits(y, n)[1..] == Bits(y / 2, n - 1);
      BitsInjective(x / 2, y / 2, n - 1);
    }
  }

  // ---------------------------------------------------------------- streams of fields

  lemma StreamAppend(fields: seq<Field>, f: Field)
    ensures Stream(fields + [f]) == Stream(fields) + Bits(f.value, f.width)
  {
    assert (fields + [f])[..|fields|] == fields;
  }

  lemma ByteStreamAppend(bytes: seq<byte>, b: byte)
    ensures ByteStream(bytes + [b]) == ByteStream(bytes) + Bits(b, 8)
  {
    assert AsFields(bytes + [b]) == AsFields(bytes) + [Field(b, 8)];
    StreamAppend(AsFields(bytes), Field(b, 8));
  }

  lemma {:induction false} StreamConcat(a: seq<Field>, b: seq<Field>)
    ensures Stream(a + b) == Stream(a) + Stream(b)
    decreases |b|
  {
    if b == [] {
      assert a + b == a;
    } else {
      var last := |b| - 1;
      StreamConcat(a, b[..last]);
      StreamAppend(a + b[..last], b[last]);
      StreamAppend(b[..last], b[last]);
      ConcatShape(a, b);
    }
  }

  lemma ConcatShape(a: seq<Field>, b: seq<Field>)
    requires b != []
    ensures a + b == (a + b[..|b| - 1]) + [b[|b| - 1]] && b == b[..|b| - 1] + [b[|b| - 1]]
  {
  }

  lemma ByteStreamConcat(a: seq<byte>, b: seq<byte>)
    ensures ByteStream(a + b) == ByteStream(a) + ByteStream(b)
  {
    assert AsFields(a + b) == AsFields(a) + AsFields(b);
    StreamConcat(AsFields(a), AsFields(b));
  }

  lemma {:induction false} ByteStreamLength(bytes: seq<byte>)
    ensures |ByteStream(bytes)| == 8 * |bytes|
    decreases |bytes|
  {
    if bytes != [] {
      var last := |bytes| - 1;
      assert bytes == bytes[..last] + [bytes[last]];
      ByteStreamAppend(bytes[..last], bytes[last]);
      ByteStreamLength(bytes[..last]);
    }
  }

  ghost predicate SameWidths(a: seq<Field>, b: seq<Field>) {
    |a| == |b| && forall i :: 0 <= i < |a| ==> a[i].width == b[i].width
  }

  ghost predicate AllFit(a: seq<Field>) {
    forall i :: 0 <= i < |a| ==> a[i].Fits()
  }

  lemma {:induction false} StreamLength(a: seq<Field>, b: seq<Field>)
    requires SameWidths(a, b)
    ensures |Stream(a)| == |Stream(b)|
    decreases |a|
  {
    if a != [] {
      var last := |a| - 1;
      StreamLength(a[..last], b[..last]);
    }
  }

  /** A stream can be read back in only one way, once the widths are known. */
  lemma {:induction false} StreamInjective(a: seq<Field>, b: seq<Field>)
    requires SameWidths(a, b) && AllFit(a) && AllFit(b) && Stream(a) == Stream(b)
    ensures a == b
    decreases |a|
  {
    if a != [] {
      var last := |a| - 1;
      StreamLength(a[..last], b[..last]);
      var n := |Stream(a[..last])|;
      assert Stream(a)[..n] == Stream(a[..last]) && Stream(b)[..n] == Stream(b[..last]);
      assert Stream(a)[n..] == Bits(a[last].value, a[last].width);
      assert Stream(b)[n..] == Bits(b[last].value, b[last].width);
      BitsInjective(a[last].value, b[last].value, a[last].width);
      StreamInjective(a[..last], b[..last]);
      assert a == a[..last] + [a[last]] && b == b[..last] + [b[last]];
    }
  }

  lemma StreamPrefixInjective(a: seq<Field>, b: seq<Field>, ra: seq<bool>, rb: seq<bool>)
    requires SameWidths(a, b) && AllFit(a) && AllFit(b) && Stream(a) + ra == Stream(b) + rb
    ensures a == b && ra == rb
  {
    StreamLength(a, b);
    var n := |Stream(a)|;
    assert (Stream(a) + ra)[..n] == Stream(a) && (Stream(b) + rb)[..n] == Stream(b);
    assert (Stream(a) + ra)[n..] == ra && (Stream(b) + rb)[n..] == rb;
    StreamInjective(a, b);
  }

  // ---------------------------------------------------------------- reading a stream back

  /** The number whose low bits these are. */
  function Value(b: seq<bool>): (x: nat)
    ensures x < Pow2(|b|) && Bits(x, |b|) == b
    decreases |b|
  {
    if b == [] then 0 else
      var high := Value(b[1..]);
      assert b == [b[0]] + b[1..];
      (if b[0] then 1 else 0) + 2 * high
  }

  lemma ValueOfBits(x: nat, n: nat)
    requires x < Pow2(n)
    ensures Value(Bits(x, n)) == x
  {
    BitsInjective(Value(Bits(x, n)), x, n);
  }

  function Total(widths: seq<nat>): nat
    decreases |widths|
  {
    if widths == [] then 0 else widths[0] + Total(widths[1..])
  }

  /** The fields that a reader who knows the widths finds in a stream. */
  function Parse(widths: seq<nat>, bits: seq<bool>): (fields: seq<Field>)
    requires Total(widths) <= |bits|
    ensures |fields| == |widths| && AllFit(fields)
    ensures forall i :: 0 <= i < |widths| ==> fields[i].width == widths[i]
    decreases |widths|
  {
    if widths == [] then [] else
      [Field(Value(bits[..widths[0]]), widths[0])] + Parse(widths[1..], bits[widths[0]..])
  }

  lemma StreamPrepend(f: Field, fields: seq<Field>)
    ensures Stream([f] + fields) == Bits(f.value, f.width) + Stream(fields)
  {
    StreamConcat([f], fields);
    assert [f] == [] + [f];
    StreamAppend([], f);
  }

  /** Parsing loses nothing: the fields stream back into the bits they were parsed from. */
  lemma {:induction false} ParseThenStream(widths: seq<nat>, bits: seq<bool>)
    requires Total(widths) <= |bits|
    ensures Stream(Parse(widths, bits)) == bits[..Total(widths)]
    decreases |widths|
  {
    if widths == [] {
    } else {
      hide Stream, Bits;
      var w, total := widths[0], Total(widths[1..]);
      var f, fields := Field(Value(bits[..w]), w), Parse(widths[1..], bits[w..]);
      ParseThenStream(widths[1..], bits[w..]);
      StreamPrepend(f, fields);
      TakeSplits(bits, w, total);
      assert Parse(widths, bits) == [f] + fields;
    }
  }

  lemma TakeSplits(bits: seq<bool>, w: nat, n: nat)
    requires w + n <= |bits|
    ensures bits[..w + n] == bits[..w] + bits[w..][..n]
  {
  }

  /** And it is the only way to read the stream. */
  lemma StreamThenParse(widths: seq<nat>, fields: seq<Field>, rest: seq<bool>)
    requires |fields| == |widths| && AllFit(fields)
    requires forall i :: 0 <= i < |widths| ==> fields[i].width == widths[i]
    ensures |Stream(fields)| == Total(widths) && Parse(widths, Stream(fields) + rest) == fields
  {
    TotalIsLength(widths, fields);
    var parsed := Parse(widths, Stream(fields) + rest);
    ParseThenStream(widths, Stream(fields) + rest);
    assert Stream(parsed) + rest == Stream(fields) + rest;
    StreamPrefixInjective(parsed, fields, rest, rest);
  }

  lemma {:induction false} TotalIsLength(widths: seq<nat>, fields: seq<Field>)
    requires |fields| == |widths|
    requires forall i :: 0 <= i < |widths| ==> fields[i].width == widths[i]
    ensures |Stream(fields)| == Total(widths)
    decreases |widths|
  {
    if widths != [] {
      assert fields == [fields[0]] + fields[1..];
      StreamPrepend(fields[0], fields[1..]);
      TotalIsLength(widths[1..], fields[1..]);
    }
  }

  /** The bytes that hold a stream. */
  function FromBits(bits: seq<bool>): (bytes: seq<byte>)
    ensures |bytes| == |bits| / 8
    decreases |bits|
  {
    Pow2Values();
    if |bits| < 8 then [] else [Value(bits[..8])] + FromBits(bits[8..])
  }

  lemma {:induction false} FromBitsThenStream(bits: seq<bool>)
    requires |bits| % 8 == 0
    ensures ByteStream(FromBits(bits)) == bits
    decreases |bits|
  {
    Pow2Values();
    if bits != [] {
      FromBitsThenStream(bits[8..]);
      ByteStreamConcat([Value(bits[..8])], FromBits(bits[8..]));
      OneByteStream(Value(bits[..8]));
      assert bits == bits[..8] + bits[8..];
    }
  }

  lemma OneByteStream(b: byte)
    ensures ByteStream([b]) == Bits(b, 8)
  {
    ByteStreamAppend([], b);
    assert [] + [b] == [b];
  }

  lemma {:induction false} StreamThenFromBits(bytes: seq<byte>)
    ensures FromBits(ByteStream(bytes)) == bytes
    decreases |bytes|
  {
    if bytes != [] {
      assert bytes == [bytes[0]] + bytes[1..];
      ByteStreamConcat([bytes[0]], bytes[1..]);
      OneByteStream(bytes[0]);
      ByteStreamLength(bytes);
      Pow2Values();
      ValueOfBits(bytes[0], 8);
      assert ByteStream(bytes)[..8] == Bits(bytes[0], 8) && ByteStream(bytes)[8..] == ByteStream(bytes[1..]);
      StreamThenFromBits(bytes[1..]);
    }
  }

  // ---------------------------------------------------------------- the operators of C

  /** x | y. */
  function Or(x: nat, y: nat): nat
    decreases x + y
  {
    if x == 0 then y else if y == 0 then x
    else (if x % 2 == 1 || y % 2 == 1 then 1 else 0) + 2 * Or(x / 2, y / 2)
  }

  /** x & y. */
  function And(x: nat, y: nat): nat
    decreases x
  {
    if x == 0 || y == 0 then 0
    else (if x % 2 == 1 && y % 2 == 1 then 1 else 0) + 2 * And(x / 2, y / 2)
  }

  /** Or with a number shifted above all bits of the other is addition. */
  lemma {:induction false} OrAbove(a: nat, n: nat, b: nat)
    requires a < Pow2(n)
    ensures Or(a, Shl(b, n)) == a + Shl(b, n)
    decreases n
  {
    if n > 0 && a != 0 {
      ShlDoubles(b, n);
      OrAbove(a / 2, n - 1, b);
    }
  }

  /** A mask of n ones keeps the n low bits. */
  lemma {:induction false} AndMask(x: nat, n: nat)
    ensures And(x, Pow2(n) - 1) < Pow2(n) && Bits(And(x, Pow2(n) - 1), n) == Bits(x, n)
    decreases n
  {
    if n > 0 {
      var m := Pow2(n) - 1;
      assert m % 2 == 1 && m / 2 == Pow2(n - 1) - 1;
      AndMask(x / 2, n - 1);
      var a := And(x, m);
      assert a == x % 2 + 2 * And(x / 2, m / 2) by {
        if x == 0 {
          assert And(0, m / 2) == 0;
        } else if x / 2 == 0 {
          assert And(0, m / 2) == 0;
        }
      }
      assert a % 2 == x % 2 && a / 2 == And(x / 2, m / 2);
    }
  }

  lemma AndIsRemainder(x: nat, n: nat)
    ensures And(x, Pow2(n) - 1) == x % Pow2(n) < Pow2(n)
  {
    AndMask(x, n);
    LowBits(x, n);
    hide And, Bits;
    DivBounds(x, Pow2(n), x / Pow2(n));
    BitsInjective(And(x, Pow2(n) - 1), x % Pow2(n), n);
  }

  lemma LowBits(x: nat, n: nat)
    ensures Bits(x % Pow2(n), n) == Bits(x, n)
  {
    var p := Pow2(n);
    hide Pow2, Shl, Bits;
    var q, r := x / p, x % p;
    assert x == r + q * p;
    ShlIsProduct(q, n);
    BitsJoin(r, n, q, 0);
    assert Bits(x, n) == Bits(r, n) + Bits(q, 0);
    assert Bits(q, 0) == [];
  }
}
