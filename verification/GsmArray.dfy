/** gsm_implode and gsm_explode: the 33-byte format for the 76 parameters of a frame in one array of
  words, whose values nobody has checked (gsm/src/gsm_implode.c:338-507, gsm/src/gsm_explode.c:273-414).

  Words are bit-vectors here, so that the shifts and masks are those of the C code; a shift of a
  signed word followed by a mask of low bits is the same as an unsigned one. */
module GsmArray {
  import GsmFrame

  type Frame33 = GsmFrame.Frame33

  /** LARc[0..8], and then Nc, bc, Mc, xmaxc and xmc[0..13] of each sub-segment. */
  type Params76 = a: seq<bv16> | |a| == 76 witness seq(76, _ => 0)

  const GSM_MAGIC: bv16 := 0xD

  function ImplodeLars(l: seq<bv16>): (c: seq<bv8>)
    requires |l| == 8
    ensures |c| == 5
  {
    [(((GSM_MAGIC & 0xF) << 4) | ((l[0] >> 2) & 0xF)) as bv8,
     (((l[0] & 0x3) << 6) | (l[1] & 0x3F)) as bv8,
     (((l[2] & 0x1F) << 3) | ((l[3] >> 2) & 0x7)) as bv8,
     (((l[3] & 0x3) << 6) | ((l[4] & 0xF) << 2) | ((l[5] >> 2) & 0x3)) as bv8,
     (((l[5] & 0x3) << 6) | ((l[6] & 0x7) << 3) | (l[7] & 0x7)) as bv8]
  }

  function ImplodeSub(s: seq<bv16>): (c: seq<bv8>)
    requires |s| == 17
    ensures |c| == 7
  {
    var x := s[4..];
    [(((s[0] & 0x7F) << 1) | ((s[1] >> 1) & 0x1)) as bv8,
     (((s[1] & 0x1) << 7) | ((s[2] & 0x3) << 5) | ((s[3] >> 1) & 0x1F)) as bv8,
     (((s[3] & 0x1) << 7) | ((x[0] & 0x7) << 4) | ((x[1] & 0x7) << 1) | ((x[2] >> 2) & 0x1)) as bv8,
     (((x[2] & 0x3) << 6) | ((x[3] & 0x7) << 3) | (x[4] & 0x7)) as bv8,
     (((x[5] & 0x7) << 5) | ((x[6] & 0x7) << 2) | ((x[7] >> 1) & 0x3)) as bv8,
     (((x[7] & 0x1) << 7) | ((x[8] & 0x7) << 4) | ((x[9] & 0x7) << 1) | ((x[10] >> 2) & 0x1)) as bv8,
     (((x[10] & 0x3) << 6) | ((x[11] & 0x7) << 3) | (x[12] & 0x7)) as bv8]
  }

  function ExplodeLars(c: seq<bv8>): (l: seq<bv16>)
    requires |c| == 5
    ensures |l| == 8
  {
    LarWords(GsmFrame.UnpackLars(c))
  }

  /** The fields of gsm_encode as words. */
  function LarWords(b: GsmFrame.LarBits): (l: seq<bv16>)
    ensures |l| == 8
  {
    [b.l0 as bv16, b.l1 as bv16, b.l2 as bv16, b.l3 as bv16, b.l4 as bv16, b.l5 as bv16, b.l6 as bv16, b.l7 as bv16]
  }

  function ExplodeSub(c: seq<bv8>): (s: seq<bv16>)
    requires |c| == 7
    ensures |s| == 17
  {
    SubWords(GsmFrame.UnpackSub(c))
  }

  function SubWords(b: GsmFrame.SubBits): (s: seq<bv16>)
    requires |b.xmc| == 13
    ensures |s| == 17
  {
    var x := b.xmc;
    [b.nc as bv16, b.bc as bv16, b.mc as bv16, b.xmaxc as bv16,
     x[0] as bv16, x[1] as bv16, x[2] as bv16, x[3] as bv16, x[4] as bv16, x[5] as bv16, x[6] as bv16,
     x[7] as bv16, x[8] as bv16, x[9] as bv16, x[10] as bv16, x[11] as bv16, x[12] as bv16]
  }

  /** The low bits of a word; the word itself exactly if it has no others. */
  function Low7(x: bv16): (r: bv16)
    ensures r == x <==> x < 128
  {
    x & 0x7F
  }

  function Low6(x: bv16): (r: bv16)
    ensures r == x <==> x < 64
  {
    x & 0x3F
  }

  function Low5(x: bv16): (r: bv16)
    ensures r == x <==> x < 32
  {
    x & 0x1F
  }

  function Low4(x: bv16): (r: bv16)
    ensures r == x <==> x < 16
  {
    x & 0xF
  }

  function Low3(x: bv16): (r: bv16)
    ensures r == x <==> x < 8
  {
    x & 0x7
  }

  function Low2(x: bv16): (r: bv16)
    ensures r == x <==> x < 4
  {
    x & 0x3
  }

  /** The words reduced to the widths of their fields. */
  function LarsCut(l: seq<bv16>): (m: seq<bv16>)
    requires |l| == 8
    ensures |m| == 8
  {
    [Low6(l[0]), Low6(l[1]), Low5(l[2]), Low5(l[3]), Low4(l[4]), Low4(l[5]), Low3(l[6]), Low3(l[7])]
  }

  function SubCut(s: seq<bv16>): (m: seq<bv16>)
    requires |s| == 17
    ensures |m| == 17
  {
    [Low7(s[0]), Low2(s[1]), Low2(s[2]), Low6(s[3]), Low3(s[4]), Low3(s[5]), Low3(s[6]), Low3(s[7]), Low3(s[8]),
     Low3(s[9]), Low3(s[10]), Low3(s[11]), Low3(s[12]), Low3(s[13]), Low3(s[14]), Low3(s[15]), Low3(s[16])]
  }

  lemma LarsThrough(l: seq<bv16>)
    requires |l| == 8
    ensures ExplodeLars(ImplodeLars(l)) == LarsCut(l)
  {
  }

  /** The bits of a sub-segment that the masks let through. */
  function SubNarrowed(s: seq<bv16>): (b: GsmFrame.SubBits)
    requires |s| == 17
    ensures |b.xmc| == 13
  {
    GsmFrame.SubBits(Low7(s[0]) as bv7, Low2(s[1]) as bv2, Low2(s[2]) as bv2, Low6(s[3]) as bv6,
                     [Low3(s[4]) as bv3, Low3(s[5]) as bv3, Low3(s[6]) as bv3, Low3(s[7]) as bv3, Low3(s[8]) as bv3,
                      Low3(s[9]) as bv3, Low3(s[10]) as bv3, Low3(s[11]) as bv3, Low3(s[12]) as bv3,
                      Low3(s[13]) as bv3, Low3(s[14]) as bv3, Low3(s[15]) as bv3, Low3(s[16]) as bv3])
  }

  lemma ImplodeNarrowed(s: seq<bv16>)
    requires |s| == 17
    ensures ImplodeSub(s) == GsmFrame.PackSub(SubNarrowed(s))
  {
  }

  lemma NarrowedWords(s: seq<bv16>)
    requires |s| == 17
    ensures SubWords(SubNarrowed(s)) == SubCut(s)
  {
    SameSeventeen(SubWords(SubNarrowed(s)), SubCut(s));
  }

  lemma SubThrough(s: seq<bv16>)
    requires |s| == 17
    ensures ExplodeSub(ImplodeSub(s)) == SubCut(s)
  {
    ImplodeNarrowed(s);
    GsmFrame.SubRoundTrip(SubNarrowed(s));
    NarrowedWords(s);
    hide ImplodeSub, GsmFrame.PackSub, GsmFrame.UnpackSub, SubNarrowed, SubWords, SubCut;
  }

  // ---------------------------------------------------------------- whole frames

  function Implode(a: Params76): Frame33 {
    GsmFrame.Concatenated(ImplodeLars(a[..8]), ImplodeSub(a[8..25]), ImplodeSub(a[25..42]), ImplodeSub(a[42..59]),
                          ImplodeSub(a[59..76]))
  }

  datatype Exploded = BadMagic | Words(a: Params76)

  /** -1, with nothing written, for a frame without the magic nibble. */
  function Explode(c: Frame33): Exploded {
    if (c[0] >> 4) & 0x0F != GsmFrame.GSM_MAGIC then BadMagic
    else Words(Joined(ExplodeLars(c[..5]), ExplodeSub(c[5..12]), ExplodeSub(c[12..19]), ExplodeSub(c[19..26]),
                      ExplodeSub(c[26..33])))
  }

  function Joined(l: seq<bv16>, s0: seq<bv16>, s1: seq<bv16>, s2: seq<bv16>, s3: seq<bv16>): (a: Params76)
    requires |l| == 8 && |s0| == |s1| == |s2| == |s3| == 17
    ensures a[..8] == l && a[8..25] == s0 && a[25..42] == s1 && a[42..59] == s2 && a[59..76] == s3
  {
    l + s0 + s1 + s2 + s3
  }

  /** Every word reduced to the width of its field. */
  function Cut(a: Params76): Params76 {
    Joined(LarsCut(a[..8]), SubCut(a[8..25]), SubCut(a[25..42]), SubCut(a[42..59]), SubCut(a[59..76]))
  }

  predicate LarsFit(l: seq<bv16>)
    requires |l| == 8
  {
    l[0] < 64 && l[1] < 64 && l[2] < 32 && l[3] < 32 && l[4] < 16 && l[5] < 16 && l[6] < 8 && l[7] < 8
  }

  predicate SubFit(s: seq<bv16>)
    requires |s| == 17
  {
    s[0] < 128 && s[1] < 4 && s[2] < 4 && s[3] < 64 &&
    s[4] < 8 && s[5] < 8 && s[6] < 8 && s[7] < 8 && s[8] < 8 && s[9] < 8 && s[10] < 8 && s[11] < 8 && s[12] < 8 &&
    s[13] < 8 && s[14] < 8 && s[15] < 8 && s[16] < 8
  }

  /** As unsigned numbers, all words are below two to the width of their field. */
  predicate Fits(a: Params76) {
    LarsFit(a[..8]) && SubFit(a[8..25]) && SubFit(a[25..42]) && SubFit(a[42..59]) && SubFit(a[59..76])
  }

  lemma Magic(l: seq<bv16>)
    requires |l| == 8
    ensures (ImplodeLars(l)[0] >> 4) & 0x0F == GsmFrame.GSM_MAGIC
  {
  }

  /** Any 76 words come back cut to their fields. */
  lemma ImplodeThenExplode(a: Params76)
    ensures Explode(Implode(a)) == Words(Cut(a))
  {
    Magic(a[..8]);
    LarsThrough(a[..8]);
    SubThrough(a[8..25]);
    SubThrough(a[25..42]);
    SubThrough(a[42..59]);
    SubThrough(a[59..76]);
    hide ImplodeLars, ImplodeSub, ExplodeLars, ExplodeSub, LarsCut, SubCut;
    GsmFrame.Parts(ImplodeLars(a[..8]), ImplodeSub(a[8..25]), ImplodeSub(a[25..42]), ImplodeSub(a[42..59]),
                   ImplodeSub(a[59..76]));
    assert Implode(a)[0] == Implode(a)[..5][0];
  }

  lemma LarsCutIff(l: seq<bv16>)
    requires |l| == 8
    ensures LarsCut(l) == l <==> LarsFit(l)
  {
    hide Low3, Low4, Low5, Low6;
    var m := LarsCut(l);
    assert m == l <==> m[0] == l[0] && m[1] == l[1] && m[2] == l[2] && m[3] == l[3] && m[4] == l[4] && m[5] == l[5] &&
                       m[6] == l[6] && m[7] == l[7];
  }

  lemma SubCutIff(s: seq<bv16>)
    requires |s| == 17
    ensures SubCut(s) == s <==> SubFit(s)
  {
    hide Low2, Low3, Low6, Low7;
    SameSeventeen(SubCut(s), s);
  }

  lemma SameSeventeen<T>(m: seq<T>, s: seq<T>)
    requires |m| == |s| == 17
    ensures m == s <==> m[0] == s[0] && m[1] == s[1] && m[2] == s[2] && m[3] == s[3] && m[4] == s[4] && m[5] == s[5] &&
                        m[6] == s[6] && m[7] == s[7] && m[8] == s[8] && m[9] == s[9] && m[10] == s[10] &&
                        m[11] == s[11] && m[12] == s[12] && m[13] == s[13] && m[14] == s[14] && m[15] == s[15] &&
                        m[16] == s[16]
  {
  }

  lemma CutParts(a: Params76)
    ensures var c := Cut(a);
            c[..8] == LarsCut(a[..8]) && c[8..25] == SubCut(a[8..25]) && c[25..42] == SubCut(a[25..42]) &&
            c[42..59] == SubCut(a[42..59]) && c[59..76] == SubCut(a[59..76])
  {
    hide Joined, LarsCut, SubCut;
  }

  lemma CutIff(a: Params76)
    ensures Cut(a) == a <==> Fits(a)
  {
    hide Cut, LarsCut, SubCut, LarsFit, SubFit;
    CutParts(a);
    LarsCutIff(a[..8]);
    SubCutIff(a[8..25]);
    SubCutIff(a[25..42]);
    SubCutIff(a[42..59]);
    SubCutIff(a[59..76]);
    SameParts(Cut(a), a);
  }

  /** The array survives the format exactly if every word fits its field. */
  lemma LosslessIff(a: Params76)
    ensures Explode(Implode(a)) == Words(a) <==> Fits(a)
  {
    hide Explode, Implode, Cut, Fits;
    ImplodeThenExplode(a);
    CutIff(a);
  }

  lemma SameParts(a: Params76, b: Params76)
    ensures a == b <==> a[..8] == b[..8] && a[8..25] == b[8..25] && a[25..42] == b[25..42] && a[42..59] == b[42..59] &&
                        a[59..76] == b[59..76]
  {
    assert a == a[..8] + a[8..25] + a[25..42] + a[42..59] + a[59..76];
    assert b == b[..8] + b[8..25] + b[25..42] + b[42..59] + b[59..76];
  }

  // ---------------------------------------------------------------- the same format as gsm_encode

  lemma SameLars(b: GsmFrame.LarBits)
    ensures ImplodeLars(LarWords(b)) == GsmFrame.PackLars(b)
  {
  }

  lemma SameSub(b: GsmFrame.SubBits)
    requires |b.xmc| == 13
    ensures ImplodeSub(SubWords(b)) == GsmFrame.PackSub(b)
  {
  }

  /** The 76 parameters of a coded frame. */
  function ArrayOf(p: GsmFrame.FrameParams): Params76 {
    hide LarWords, SubWords, GsmFrame.LarsToBits, GsmFrame.SubToBits;
    Joined(LarWords(GsmFrame.LarsToBits(p.larc)), SubWords(GsmFrame.SubToBits(p.sub[0])),
           SubWords(GsmFrame.SubToBits(p.sub[1])), SubWords(GsmFrame.SubToBits(p.sub[2])),
           SubWords(GsmFrame.SubToBits(p.sub[3])))
  }

  /** gsm_implode of the parameters of a frame is gsm_encode of that frame. */
  lemma ImplodeIsPack(p: GsmFrame.FrameParams)
    ensures Implode(ArrayOf(p)) == GsmFrame.Pack(p)
  {
    SameLars(GsmFrame.LarsToBits(p.larc));
    SameSub(GsmFrame.SubToBits(p.sub[0]));
    SameSub(GsmFrame.SubToBits(p.sub[1]));
    SameSub(GsmFrame.SubToBits(p.sub[2]));
    SameSub(GsmFrame.SubToBits(p.sub[3]));
    hide ImplodeLars, ImplodeSub, LarWords, SubWords, GsmFrame.PackLars, GsmFrame.PackSub, GsmFrame.LarsToBits,
         GsmFrame.SubToBits;
  }

  /** And any frame with the magic nibble is exploded into words from which it is imploded again. */
  lemma ExplodeThenImplode(c: Frame33)
    requires Explode(c).Words?
    ensures Implode(Explode(c).a) == c
  {
    hide ImplodeLars, ImplodeSub, ExplodeLars, ExplodeSub, Implode, Joined;
    GsmFrame.MagicByte(c[0]);
    LarBytes(c[..5]);
    SubBytes(c[5..12]);
    SubBytes(c[12..19]);
    SubBytes(c[19..26]);
    SubBytes(c[26..33]);
    ImplodeJoined(ExplodeLars(c[..5]), ExplodeSub(c[5..12]), ExplodeSub(c[12..19]), ExplodeSub(c[19..26]),
                  ExplodeSub(c[26..33]));
    Reassembled(c);
  }

  lemma Reassembled(c: Frame33)
    ensures GsmFrame.Concatenated(c[..5], c[5..12], c[12..19], c[19..26], c[26..33]) == c
  {
  }

  lemma ImplodeJoined(l: seq<bv16>, s0: seq<bv16>, s1: seq<bv16>, s2: seq<bv16>, s3: seq<bv16>)
    requires |l| == 8 && |s0| == |s1| == |s2| == |s3| == 17
    ensures Implode(Joined(l, s0, s1, s2, s3))
         == GsmFrame.Concatenated(ImplodeLars(l), ImplodeSub(s0), ImplodeSub(s1), ImplodeSub(s2), ImplodeSub(s3))
  {
    hide Joined, ImplodeLars, ImplodeSub, GsmFrame.Concatenated;
  }

  lemma LarBytes(c: seq<bv8>)
    requires |c| == 5 && c[0] >> 4 == GsmFrame.GSM_MAGIC
    ensures ImplodeLars(ExplodeLars(c)) == c
  {
    SameLars(GsmFrame.UnpackLars(c));
    GsmFrame.LarBytesRoundTrip(c);
    hide ImplodeLars, LarWords, GsmFrame.PackLars, GsmFrame.UnpackLars;
  }

  lemma SubBytes(c: seq<bv8>)
    requires |c| == 7
    ensures ImplodeSub(ExplodeSub(c)) == c
  {
    SameSub(GsmFrame.UnpackSub(c));
    GsmFrame.SubBytesRoundTrip(c);
    hide ImplodeSub, SubWords, GsmFrame.PackSub, GsmFrame.UnpackSub;
  }

  // ---------------------------------------------------------------- the procedures

  /** gsm_implode. */
  method ImplodeInto(source: Params76, c: array<bv8>)
    requires c.Length == 33
    modifies c
    ensures c[..] == Implode(source)
  {
    hide ImplodeLars, ImplodeSub;
    GsmFrame.PutBytes(c, 0, ImplodeLars(source[..8]));
    var done := ImplodeLars(source[..8]);
    for k := 0 to 4
      invariant done == c[..5 + 7 * k] == ImplodedUpto(source, k)
    {
      var bytes, at := ImplodeSub(source[8 + 17 * k..25 + 17 * k]), 5 + 7 * k;
      GsmFrame.PutBytes(c, at, bytes);
      done := done + bytes;
      assert c[..at + 7] == c[..at] + c[at..at + 7];
      assert ImplodedUpto(source, k + 1) == ImplodedUpto(source, k) + bytes;
    }
    assert c[..33] == c[..];
    ImplodedAll(source);
  }

  function ImplodedUpto(a: Params76, k: nat): (c: seq<bv8>)
    requires k <= 4
    decreases k, a
  {
    if k == 0 then ImplodeLars(a[..8]) else ImplodedUpto(a, k - 1) + ImplodeSub(a[17 * k - 9..17 * k + 8])
  }

  lemma ImplodedAll(a: Params76)
    ensures ImplodedUpto(a, 4) == Implode(a)
  {
    hide ImplodeLars, ImplodeSub;
    assert ImplodedUpto(a, 2) == ImplodedUpto(a, 1) + ImplodeSub(a[25..42]);
  }

  /** gsm_explode; -1, and an untouched target, for a frame without the magic nibble. */
  method ExplodeInto(c: Frame33, target: array<bv16>) returns (rc: int)
    requires target.Length == 76
    modifies target
    ensures rc == (if Explode(c).BadMagic? then -1 else 0)
    ensures target[..] == if Explode(c).BadMagic? then old(target[..]) else Explode(c).a
  {
    if (c[0] >> 4) & 0x0F != GsmFrame.GSM_MAGIC {
      return -1;
    }
    hide ExplodeLars, ExplodeSub, Joined;
    PutParts(target, ExplodeLars(c[..5]), ExplodeSub(c[5..12]), ExplodeSub(c[12..19]), ExplodeSub(c[19..26]),
             ExplodeSub(c[26..33]));
    return 0;
  }

  method PutParts(target: array<bv16>, l: seq<bv16>, s0: seq<bv16>, s1: seq<bv16>, s2: seq<bv16>, s3: seq<bv16>)
    requires target.Length == 76 && |l| == 8 && |s0| == |s1| == |s2| == |s3| == 17
    modifies target
    ensures target[..] == Joined(l, s0, s1, s2, s3)
  {
    PutWords(target, 0, l);
    assert target[..0] == [];
    PutWords(target, 8, s0);
    PutWords(target, 25, s1);
    PutWords(target, 42, s2);
    PutWords(target, 59, s3);
    assert target[..76] == target[..];
  }

  method PutWords(a: array<bv16>, at: nat, words: seq<bv16>)
    requires at + |words| <= a.Length
    modifies a
    ensures a[..at + |words|] == old(a[..at]) + words
  {
    for i := 0 to |words|
      invariant a[..at + i] == old(a[..at]) + words[..i]
    {
      a[at + i] := words[i];
      assert a[..at + i + 1] == a[..at + i] + [words[i]];
    }
    assert words[..|words|] == words;
  }
}
