/** The WAV49 format: frames of 260 bits in alternating blocks of 32 and 33 bytes, with four bits
  carried from block to block in frame_chain (gsm/src/gsm_encode.c:108-342,
  gsm/src/gsm_decode.c:19-249).  Writer and reader change blocks at different places, so that
  encoder blocks of 32 and 33 bytes are decoder blocks of 33 and 32. */
module WavFrame {
  import opened Words
  import opened BitStreams
  import opened ShiftRegister
  import GsmCodec
  import GsmFrame

  type FrameParams = GsmCodec.FrameParams
  type SubParams = GsmCodec.SubParams
  type LarCodes = GsmCodec.LarCodes
  type FourSubs = GsmCodec.FourSubs

  // ---------------------------------------------------------------- the 76 fields of a frame

  const LAR_WIDTHS: seq<nat> := [6, 6, 5, 5, 4, 4, 3, 3]
  const SUB_WIDTHS: seq<nat> := [7, 2, 2, 6, 3, 3, 3, 3, 3, 3, 3, 3, 3, 3, 3, 3, 3]

  /** `fields` have the given widths, and values that fit. */
  ghost predicate Typed(fields: seq<Field>, widths: seq<nat>) {
    |fields| == |widths| && AllFit(fields) && forall i :: 0 <= i < |widths| ==> fields[i].width == widths[i]
  }

  function LarFields(l: LarCodes): (fields: seq<Field>)
    ensures Typed(fields, LAR_WIDTHS)
  {
    Pow2Values();
    GsmFrame.LarRanges(l);
    [Field(l[0], 6), Field(l[1], 6), Field(l[2], 5), Field(l[3], 5),
     Field(l[4], 4), Field(l[5], 4), Field(l[6], 3), Field(l[7], 3)]
  }

  function SubFieldList(s: SubParams): (fields: seq<Field>)
    ensures Typed(fields, SUB_WIDTHS)
  {
    Pow2Values();
    var x := s.xmc;
    [Field(s.nc, 7), Field(s.bc, 2), Field(s.mc, 2), Field(s.xmaxc, 6),
     Field(x[0], 3), Field(x[1], 3), Field(x[2], 3), Field(x[3], 3), Field(x[4], 3), Field(x[5], 3), Field(x[6], 3),
     Field(x[7], 3), Field(x[8], 3), Field(x[9], 3), Field(x[10], 3), Field(x[11], 3), Field(x[12], 3)]
  }

  /** Fields n to n + 16 of the plan are those of the sub-segment. */
  ghost predicate SubAt(plan: seq<Field>, n: nat, s: SubParams) {
    n + 17 <= |plan| && plan[n] == Field(s.nc, 7) && plan[n + 1] == Field(s.bc, 2) && plan[n + 2] == Field(s.mc, 2) &&
    plan[n + 3] == Field(s.xmaxc, 6) &&
    plan[n + 4] == Field(s.xmc[0], 3) &&
    plan[n + 5] == Field(s.xmc[1], 3) &&
    plan[n + 6] == Field(s.xmc[2], 3) &&
    plan[n + 7] == Field(s.xmc[3], 3) &&
    plan[n + 8] == Field(s.xmc[4], 3) &&
    plan[n + 9] == Field(s.xmc[5], 3) &&
    plan[n + 10] == Field(s.xmc[6], 3) &&
    plan[n + 11] == Field(s.xmc[7], 3) &&
    plan[n + 12] == Field(s.xmc[8], 3) &&
    plan[n + 13] == Field(s.xmc[9], 3) &&
    plan[n + 14] == Field(s.xmc[10], 3) &&
    plan[n + 15] == Field(s.xmc[11], 3) &&
    plan[n + 16] == Field(s.xmc[12], 3)
  }

  /** Fields n to n + 7 of the plan are those of the log-area ratios. */
  ghost predicate LarAt(plan: seq<Field>, n: nat, l: LarCodes) {
    n + 8 <= |plan| && plan[n] == Field(l[0], 6) && plan[n + 1] == Field(l[1], 6) &&
    plan[n + 2] == Field(l[2], 5) && plan[n + 3] == Field(l[3], 5) && plan[n + 4] == Field(l[4], 4) &&
    plan[n + 5] == Field(l[5], 4) && plan[n + 6] == Field(l[6], 3) && plan[n + 7] == Field(l[7], 3)
  }

  predicate Narrow(f: Field, width: nat, limit: nat) {
    f.width == width && f.value < limit
  }

  ghost predicate LarTyped(plan: seq<Field>, n: nat) {
    n + 8 <= |plan| && Narrow(plan[n], 6, 64) && Narrow(plan[n + 1], 6, 64) &&
    Narrow(plan[n + 2], 5, 32) && Narrow(plan[n + 3], 5, 32) && Narrow(plan[n + 4], 4, 16) &&
    Narrow(plan[n + 5], 4, 16) && Narrow(plan[n + 6], 3, 8) && Narrow(plan[n + 7], 3, 8)
  }

  ghost predicate SubTyped(plan: seq<Field>, n: nat) {
    n + 17 <= |plan| && Narrow(plan[n], 7, 128) && Narrow(plan[n + 1], 2, 4) &&
    Narrow(plan[n + 2], 2, 4) && Narrow(plan[n + 3], 6, 64) && Narrow(plan[n + 4], 3, 8) &&
    Narrow(plan[n + 5], 3, 8) && Narrow(plan[n + 6], 3, 8) && Narrow(plan[n + 7], 3, 8) &&
    Narrow(plan[n + 8], 3, 8) && Narrow(plan[n + 9], 3, 8) && Narrow(plan[n + 10], 3, 8) &&
    Narrow(plan[n + 11], 3, 8) && Narrow(plan[n + 12], 3, 8) && Narrow(plan[n + 13], 3, 8) &&
    Narrow(plan[n + 14], 3, 8) && Narrow(plan[n + 15], 3, 8) && Narrow(plan[n + 16], 3, 8)
  }

  function SubOf(nc: nat, bc: nat, mc: nat, xmaxc: nat, x0: nat, x1: nat, x2: nat, x3: nat, x4: nat, x5: nat, x6: nat, x7: nat, x8: nat, x9: nat, x10: nat, x11: nat, x12: nat) : (s: SubParams)
    requires nc < 128 && bc < 4 && mc < 4 && xmaxc < 64
    requires x0 < 8 && x1 < 8 && x2 < 8 && x3 < 8 && x4 < 8 && x5 < 8 && x6 < 8 && x7 < 8 && x8 < 8 && x9 < 8 && x10 < 8 && x11 < 8 && x12 < 8
    ensures s.nc == nc && s.bc == bc && s.mc == mc && s.xmaxc == xmaxc
    ensures s.xmc[0] == x0 && s.xmc[1] == x1 && s.xmc[2] == x2 && s.xmc[3] == x3 && s.xmc[4] == x4 && s.xmc[5] == x5 && s.xmc[6] == x6 && s.xmc[7] == x7 && s.xmc[8] == x8 && s.xmc[9] == x9 && s.xmc[10] == x10 && s.xmc[11] == x11 && s.xmc[12] == x12
  {
    GsmCodec.SubFields(nc, bc, mc, xmaxc, [x0, x1, x2, x3, x4, x5, x6, x7, x8, x9, x10, x11, x12])
  }

  function LarsFrom(plan: seq<Field>, n: nat): (l: LarCodes)
    requires LarTyped(plan, n)
    ensures LarAt(plan, n, l)
  {
    GsmFrame.LarsOf(plan[n].value, plan[n + 1].value, plan[n + 2].value, plan[n + 3].value, plan[n + 4].value,
                    plan[n + 5].value, plan[n + 6].value, plan[n + 7].value)
  }

  function SubFrom(plan: seq<Field>, n: nat): (s: SubParams)
    requires SubTyped(plan, n)
    ensures SubAt(plan, n, s)
  {
    hide SubOf;
    SubOf(plan[n].value, plan[n + 1].value, plan[n + 2].value, plan[n + 3].value, plan[n + 4].value,
          plan[n + 5].value, plan[n + 6].value, plan[n + 7].value, plan[n + 8].value, plan[n + 9].value,
          plan[n + 10].value, plan[n + 11].value, plan[n + 12].value, plan[n + 13].value, plan[n + 14].value,
          plan[n + 15].value, plan[n + 16].value)
  }

  // ---------------------------------------------------------------- parameters as words

  /** The eight words of LARc, and the 17 words Nc, bc, Mc, xmaxc and xmc[0..13] of a sub-segment, cut
      to the widths of their fields.  gsm_implode gets such words from anywhere. */
  function LarCut(l: seq<word>): (c: LarCodes)
    requires |l| == 8
  {
    Pow2Values();
    hide Pow2, Cut;
    GsmFrame.LarsOf(Cut(l[0], 6), Cut(l[1], 6), Cut(l[2], 5), Cut(l[3], 5), Cut(l[4], 4), Cut(l[5], 4), Cut(l[6], 3),
                    Cut(l[7], 3))
  }

  function SubCut(s: seq<word>): (c: SubParams)
    requires |s| == 17
  {
    Pow2Values();
    hide Pow2, Cut, SubOf;
    SubOf(Cut(s[0], 7), Cut(s[1], 2), Cut(s[2], 2), Cut(s[3], 6), Cut(s[4], 3), Cut(s[5], 3), Cut(s[6], 3),
          Cut(s[7], 3), Cut(s[8], 3), Cut(s[9], 3), Cut(s[10], 3), Cut(s[11], 3), Cut(s[12], 3), Cut(s[13], 3),
          Cut(s[14], 3), Cut(s[15], 3), Cut(s[16], 3))
  }

  function SubWords(s: SubParams): (x: seq<word>)
    ensures |x| == 17
  {
    [s.nc, s.bc, s.mc, s.xmaxc] + s.xmc
  }

  /** Field n of the plan is the cut word v. */
  ghost predicate CutAt(plan: seq<Field>, n: nat, v: word, w: nat) {
    n < |plan| && plan[n] == Field(Cut(v, w), w)
  }

  ghost predicate LarWordsAt(plan: seq<Field>, n: nat, l: seq<word>)
    requires |l| == 8
  {
    CutAt(plan, n, l[0], 6) && CutAt(plan, n + 1, l[1], 6) && CutAt(plan, n + 2, l[2], 5) &&
    CutAt(plan, n + 3, l[3], 5) && CutAt(plan, n + 4, l[4], 4) && CutAt(plan, n + 5, l[5], 4) &&
    CutAt(plan, n + 6, l[6], 3) && CutAt(plan, n + 7, l[7], 3)
  }

  ghost predicate SubWordsAt(plan: seq<Field>, n: nat, s: seq<word>)
    requires |s| == 17
  {
    CutAt(plan, n, s[0], 7) && CutAt(plan, n + 1, s[1], 2) && CutAt(plan, n + 2, s[2], 2) &&
    CutAt(plan, n + 3, s[3], 6) && CutAt(plan, n + 4, s[4], 3) && CutAt(plan, n + 5, s[5], 3) &&
    CutAt(plan, n + 6, s[6], 3) && CutAt(plan, n + 7, s[7], 3) && CutAt(plan, n + 8, s[8], 3) &&
    CutAt(plan, n + 9, s[9], 3) && CutAt(plan, n + 10, s[10], 3) && CutAt(plan, n + 11, s[11], 3) &&
    CutAt(plan, n + 12, s[12], 3) && CutAt(plan, n + 13, s[13], 3) && CutAt(plan, n + 14, s[14], 3) &&
    CutAt(plan, n + 15, s[15], 3) && CutAt(plan, n + 16, s[16], 3)
  }

  lemma LarWordsAre(plan: seq<Field>, n: nat, l: seq<word>)
    requires |l| == 8 && LarAt(plan, n, LarCut(l))
    ensures LarWordsAt(plan, n, l)
  {
    hide Cut;
  }

  lemma SubWordsAre(plan: seq<Field>, n: nat, s: seq<word>)
    requires |s| == 17 && SubAt(plan, n, SubCut(s))
    ensures SubWordsAt(plan, n, s)
  {
    hide Cut, SubOf;
  }

  lemma LarCutOfCodes(l: LarCodes)
    ensures LarCut(l) == l
  {
    Pow2Values();
    hide Pow2, Cut;
    GsmFrame.LarRanges(l);
    CutOfShort(l[0], 6);
    CutOfShort(l[1], 6);
    CutOfShort(l[2], 5);
    CutOfShort(l[3], 5);
    CutOfShort(l[4], 4);
    CutOfShort(l[5], 4);
    CutOfShort(l[6], 3);
    CutOfShort(l[7], 3);
  }

  lemma SubCutOfParams(s: SubParams)
    ensures SubCut(SubWords(s)) == s
  {
    Pow2Values();
    hide Pow2, Cut, SubOf;
    var x := SubWords(s);
    CutOfShort(s.nc, 7);
    CutOfShort(s.bc, 2);
    CutOfShort(s.mc, 2);
    CutOfShort(s.xmaxc, 6);
    forall i | 0 <= i < 13
      ensures Cut(x[4 + i], 3) == s.xmc[i]
    {
      CutOfShort(s.xmc[i], 3);
    }
    assert SubCut(x).xmc == s.xmc;
  }

  // ---------------------------------------------------------------- writing and reading the parts

  /** LARc of a frame with odd number: nothing is carried in. */
  method WriteLars1(w: BitWriter, l: seq<word>)
    requires w.Valid() && |l| == 8 && LarWordsAt(w.plan, w.n, l)
    requires w.pos == 0 && w.count == 0 && w.out.Length == 33
    modifies w`sr, w`pos, w`n, w`count, w.out
    ensures w.Valid() && w.n == old(w.n) + 8 && w.pos == 4 && w.count == 8 * w.pos + 4
  {
    hide BitWriter.Valid, Cut;
    w.Put(l[0], 6);
    w.Put(l[1], 6);
    w.Emit(4);
    w.Put(l[2], 5);
    w.Emit(7);
    w.Put(l[3], 5);
    w.Put(l[4], 4);
    w.Emit(6);
    w.Put(l[5], 4);
    w.Put(l[6], 3);
    w.Emit(7);
    w.Put(l[7], 3);
  }

  /** Sub-segment of a frame with odd number. */
  method WriteSub1(w: BitWriter, s: seq<word>)
    requires w.Valid() && |s| == 17 && SubWordsAt(w.plan, w.n, s)
    requires w.count == 8 * w.pos + 4 && w.pos + 7 <= w.out.Length
    modifies w`sr, w`pos, w`n, w`count, w.out
    ensures w.Valid() && w.n == old(w.n) + 17 && w.pos == old(w.pos) + 7 && w.count == 8 * w.pos + 4
  {
    hide BitWriter.Valid, Cut;
    w.Put(s[0], 7);
    w.Emit(5);
    w.Put(s[1], 2);
    w.Put(s[2], 2);
    w.Put(s[3], 6);
    w.Emit(3);
    w.Put(s[4], 3);
    w.Emit(8);
    w.Put(s[5], 3);
    w.Put(s[6], 3);
    w.Put(s[7], 3);
    w.Emit(7);
    w.Put(s[8], 3);
    w.Put(s[9], 3);
    w.Put(s[10], 3);
    w.Emit(6);
    w.Put(s[11], 3);
    w.Put(s[12], 3);
    w.Emit(8);
    w.Put(s[13], 3);
    w.Put(s[14], 3);
    w.Put(s[15], 3);
    w.Emit(7);
    w.Put(s[16], 3);
  }

  /** LARc of a frame with even number, behind the four bits carried in. */
  method WriteLars2(w: BitWriter, l: seq<word>)
    requires w.Valid() && |l| == 8 && LarWordsAt(w.plan, w.n, l)
    requires w.pos == 0 && w.count == 4 && w.out.Length == 33
    modifies w`sr, w`pos, w`n, w`count, w.out
    ensures w.Valid() && w.n == old(w.n) + 8 && w.pos == 5 && w.count == 8 * w.pos
  {
    hide BitWriter.Valid, Cut;
    w.Put(l[0], 6);
    w.Emit(6);
    w.Put(l[1], 6);
    w.Emit(8);
    w.Put(l[2], 5);
    w.Put(l[3], 5);
    w.Emit(6);
    w.Put(l[4], 4);
    w.Put(l[5], 4);
    w.Emit(6);
    w.Put(l[6], 3);
    w.Put(l[7], 3);
    w.Emit(8);
  }

  /** Sub-segment of a frame with even number. */
  method WriteSub2(w: BitWriter, s: seq<word>)
    requires w.Valid() && |s| == 17 && SubWordsAt(w.plan, w.n, s)
    requires w.count == 8 * w.pos && w.pos + 7 <= w.out.Length
    modifies w`sr, w`pos, w`n, w`count, w.out
    ensures w.Valid() && w.n == old(w.n) + 17 && w.pos == old(w.pos) + 7 && w.count == 8 * w.pos
  {
    hide BitWriter.Valid, Cut;
    w.Put(s[0], 7);
    w.Put(s[1], 2);
    w.Emit(7);
    w.Put(s[2], 2);
    w.Put(s[3], 6);
    w.Emit(7);
    w.Put(s[4], 3);
    w.Put(s[5], 3);
    w.Put(s[6], 3);
    w.Emit(6);
    w.Put(s[7], 3);
    w.Put(s[8], 3);
    w.Emit(8);
    w.Put(s[9], 3);
    w.Put(s[10], 3);
    w.Put(s[11], 3);
    w.Emit(7);
    w.Put(s[12], 3);
    w.Put(s[13], 3);
    w.Put(s[14], 3);
    w.Emit(6);
    w.Put(s[15], 3);
    w.Put(s[16], 3);
    w.Emit(8);
  }

  /** LARc of a frame with odd number. */
  method ReadLars1(r: BitReader) returns (l: LarCodes)
    requires r.Valid() && LarTyped(r.plan, r.n)
    requires r.pos == 0 && r.count == 0 && |r.data| >= 32
    modifies r`sr, r`pos, r`n, r`count
    ensures r.Valid() && r.n == old(r.n) + 8 && r.pos == 5 && r.count == 4
    ensures LarAt(r.plan, old(r.n), l)
  {
    hide BitReader.Valid;
    r.Reload();
    var l0 := r.Take(6);
    r.Load(2);
    var l1 := r.Take(6);
    r.Load(4);
    var l2 := r.Take(5);
    var l3 := r.Take(5);
    r.Load(2);
    var l4 := r.Take(4);
    var l5 := r.Take(4);
    r.Load(2);
    var l6 := r.Take(3);
    var l7 := r.Take(3);
    l := GsmFrame.LarsOf(l0, l1, l2, l3, l4, l5, l6, l7);
  }

  /** Sub-segment of a frame with odd number. */
  method ReadSub1(r: BitReader) returns (s: SubParams)
    requires r.Valid() && SubTyped(r.plan, r.n)
    requires r.count == 4 && r.pos + 7 <= |r.data|
    modifies r`sr, r`pos, r`n, r`count
    ensures r.Valid() && r.n == old(r.n) + 17 && r.pos == old(r.pos) + 7 && r.count == 4
    ensures SubAt(r.plan, old(r.n), s)
  {
    hide BitReader.Valid, SubOf;
    ghost var n := r.n;
    r.Load(4);
    var nc := r.Take(7);
    var bc := r.Take(2);
    var mc := r.Take(2);
    r.Load(1);
    var xmaxc := r.Take(6);
    var x0 := r.Take(3);
    assert r.n == n + 5 && r.count == 0;
    var x1, x2, x3, x4, x5, x6, x7, x8 := ReadEight1(r);
    r.Reload();
    var x9 := r.Take(3);
    var x10 := r.Take(3);
    r.Load(2);
    var x11 := r.Take(3);
    var x12 := r.Take(3);
    s := SubOf(nc, bc, mc, xmaxc, x0, x1, x2, x3, x4, x5, x6, x7, x8, x9, x10, x11, x12);
  }

  ghost predicate Wide(plan: seq<Field>, n: nat, w: nat) {
    n < |plan| && plan[n].width == w
  }

  /** xmc[1..9] of it. */
  method ReadEight1(r: BitReader) returns (x1: nat, x2: nat, x3: nat, x4: nat, x5: nat, x6: nat, x7: nat, x8: nat)
    requires r.Valid() && r.count == 0 && r.pos + 3 <= |r.data|
    requires Wide(r.plan, r.n, 3) && Wide(r.plan, r.n + 1, 3) && Wide(r.plan, r.n + 2, 3) && Wide(r.plan, r.n + 3, 3)
    requires Wide(r.plan, r.n + 4, 3) && Wide(r.plan, r.n + 5, 3) && Wide(r.plan, r.n + 6, 3) && Wide(r.plan, r.n + 7, 3)
    modifies r`sr, r`pos, r`n, r`count
    ensures r.Valid() && r.n == old(r.n) + 8 && r.pos == old(r.pos) + 3 && r.count == 0
    ensures var n := old(r.n);
            x1 == r.plan[n].value && x2 == r.plan[n + 1].value && x3 == r.plan[n + 2].value &&
            x4 == r.plan[n + 3].value && x5 == r.plan[n + 4].value && x6 == r.plan[n + 5].value &&
            x7 == r.plan[n + 6].value && x8 == r.plan[n + 7].value
  {
    hide BitReader.Valid;
    r.Reload();
    x1 := r.Take(3);
    x2 := r.Take(3);
    r.Load(2);
    x3 := r.Take(3);
    x4 := r.Take(3);
    x5 := r.Take(3);
    r.Load(1);
    x6 := r.Take(3);
    x7 := r.Take(3);
    x8 := r.Take(3);
  }

  /** LARc of a frame with even number, behind the four bits carried in. */
  method ReadLars2(r: BitReader) returns (l: LarCodes)
    requires r.Valid() && LarTyped(r.plan, r.n)
    requires r.pos == 0 && r.count == 4 && |r.data| >= 32
    modifies r`sr, r`pos, r`n, r`count
    ensures r.Valid() && r.n == old(r.n) + 8 && r.pos == 4 && r.count == 0
    ensures LarAt(r.plan, old(r.n), l)
  {
    hide BitReader.Valid;
    r.Load(4);
    var l0 := r.Take(6);
    var l1 := r.Take(6);
    r.Reload();
    var l2 := r.Take(5);
    r.Load(3);
    var l3 := r.Take(5);
    var l4 := r.Take(4);
    r.Load(2);
    var l5 := r.Take(4);
    var l6 := r.Take(3);
    var l7 := r.Take(3);
    l := GsmFrame.LarsOf(l0, l1, l2, l3, l4, l5, l6, l7);
  }

  /** Sub-segment of a frame with even number. */
  method ReadSub2(r: BitReader) returns (s: SubParams)
    requires r.Valid() && SubTyped(r.plan, r.n)
    requires r.count == 0 && r.pos + 7 <= |r.data|
    modifies r`sr, r`pos, r`n, r`count
    ensures r.Valid() && r.n == old(r.n) + 17 && r.pos == old(r.pos) + 7 && r.count == 0
    ensures SubAt(r.plan, old(r.n), s)
  {
    hide BitReader.Valid, SubOf;
    r.Reload();
    var nc := r.Take(7);
    r.Load(1);
    var bc := r.Take(2);
    var mc := r.Take(2);
    r.Load(5);
    var xmaxc := r.Take(6);
    var x0 := r.Take(3);
    var x1 := r.Take(3);
    r.Load(1);
    var x2 := r.Take(3);
    var x3 := r.Take(3);
    var x4 := r.Take(3);
    r.Reload();
    var x5 := r.Take(3);
    var x6 := r.Take(3);
    r.Load(2);
    var x7 := r.Take(3);
    var x8 := r.Take(3);
    var x9 := r.Take(3);
    r.Load(1);
    var x10 := r.Take(3);
    var x11 := r.Take(3);
    var x12 := r.Take(3);
    s := SubOf(nc, bc, mc, xmaxc, x0, x1, x2, x3, x4, x5, x6, x7, x8, x9, x10, x11, x12);
  }

  // ---------------------------------------------------------------- whole frames

  function Fields(p: FrameParams): (fields: seq<Field>)
    ensures |fields| == 76
  {
    LarFields(p.larc) + SubFieldList(p.sub[0]) + SubFieldList(p.sub[1]) + SubFieldList(p.sub[2])
    + SubFieldList(p.sub[3])
  }

  function Widths(): (w: seq<nat>)
    ensures |w| == 76
  {
    LAR_WIDTHS + SUB_WIDTHS + SUB_WIDTHS + SUB_WIDTHS + SUB_WIDTHS
  }

  lemma {:induction false} TotalConcat(a: seq<nat>, b: seq<nat>)
    ensures Total(a + b) == Total(a) + Total(b)
    decreases |a|
  {
    if a == [] {
      assert a + b == b;
    } else {
      assert (a + b)[1..] == a[1..] + b;
      TotalConcat(a[1..], b);
    }
  }

  lemma {:induction false} TotalThrees(n: nat, w: seq<nat>)
    requires |w| == n && forall i :: 0 <= i < n ==> w[i] == 3
    ensures Total(w) == 3 * n
  {
    if n > 0 {
      TotalThrees(n - 1, w[1..]);
    }
  }

  lemma LarWidthsTotal()
    ensures Total(LAR_WIDTHS) == 36
  {
    assert LAR_WIDTHS == [6, 6, 5] + [5, 4, 4] + [3, 3];
    TotalConcat([6, 6, 5] + [5, 4, 4], [3, 3]);
    TotalConcat([6, 6, 5], [5, 4, 4]);
  }

  lemma SubWidthsTotal()
    ensures Total(SUB_WIDTHS) == 56
  {
    assert SUB_WIDTHS == [7, 2] + [2, 6] + SUB_WIDTHS[4..];
    TotalThrees(13, SUB_WIDTHS[4..]);
    TotalConcat([7, 2] + [2, 6], SUB_WIDTHS[4..]);
    TotalConcat([7, 2], [2, 6]);
  }

  /** A frame is 260 bits. */
  lemma FrameBits()
    ensures Total(Widths()) == 260
  {
    LarWidthsTotal();
    SubWidthsTotal();
    hide Total;
    var l, s := LAR_WIDTHS, SUB_WIDTHS;
    TotalConcat(l + s + s + s, s);
    TotalConcat(l + s + s, s);
    TotalConcat(l + s, s);
    TotalConcat(l, s);
  }

  ghost predicate FrameAt(plan: seq<Field>, p: FrameParams) {
    76 <= |plan| && LarAt(plan, 0, p.larc) && SubAt(plan, 8, p.sub[0]) && SubAt(plan, 25, p.sub[1]) &&
    SubAt(plan, 42, p.sub[2]) && SubAt(plan, 59, p.sub[3])
  }

  lemma LarIsAt(plan: seq<Field>, n: nat, l: LarCodes)
    requires n + 8 <= |plan| && plan[n..n + 8] == LarFields(l)
    ensures LarAt(plan, n, l)
  {
    var f := plan[n..n + 8];
    assert forall i :: 0 <= i < 8 ==> plan[n + i] == f[i];
  }

  lemma SubIsAt(plan: seq<Field>, n: nat, s: SubParams)
    requires n + 17 <= |plan| && plan[n..n + 17] == SubFieldList(s)
    ensures SubAt(plan, n, s)
  {
    hide Typed;
    var f := plan[n..n + 17];
    assert f[0] == plan[n] && f[1] == plan[n + 1] && f[2] == plan[n + 2] && f[3] == plan[n + 3] &&
           f[4] == plan[n + 4] && f[5] == plan[n + 5] && f[6] == plan[n + 6] && f[7] == plan[n + 7] &&
           f[8] == plan[n + 8] && f[9] == plan[n + 9] && f[10] == plan[n + 10] && f[11] == plan[n + 11] &&
           f[12] == plan[n + 12] && f[13] == plan[n + 13] && f[14] == plan[n + 14] && f[15] == plan[n + 15] &&
           f[16] == plan[n + 16];
  }

  lemma PartsOf(a: seq<Field>, b: seq<Field>, c: seq<Field>, d: seq<Field>, e: seq<Field>, rest: seq<Field>)
    requires |a| == 8 && |b| == |c| == |d| == |e| == 17
    ensures var plan := a + b + c + d + e + rest;
            plan[0..8] == a && plan[8..25] == b && plan[25..42] == c && plan[42..59] == d && plan[59..76] == e
  {
  }

  lemma FieldsAreAt(p: FrameParams, rest: seq<Field>)
    ensures FrameAt(Fields(p) + rest, p)
  {
    hide LarFields, SubFieldList, LarAt, SubAt;
    var plan := Fields(p) + rest;
    PartsOf(LarFields(p.larc), SubFieldList(p.sub[0]), SubFieldList(p.sub[1]), SubFieldList(p.sub[2]),
            SubFieldList(p.sub[3]), rest);
    LarIsAt(plan, 0, p.larc);
    SubIsAt(plan, 8, p.sub[0]);
    SubIsAt(plan, 25, p.sub[1]);
    SubIsAt(plan, 42, p.sub[2]);
    SubIsAt(plan, 59, p.sub[3]);
  }

  lemma FieldsTyped(p: FrameParams)
    ensures Typed(Fields(p), Widths())
  {
    hide LarFields, SubFieldList;
  }

  lemma LarTypedAt(plan: seq<Field>)
    requires Typed(plan, Widths())
    ensures LarTyped(plan, 0)
  {
    Pow2Values();
    assert forall i :: 0 <= i < 8 ==> Widths()[i] == LAR_WIDTHS[i];
  }

  lemma SubWidths(n: nat)
    requires n == 8 || n == 25 || n == 42 || n == 59
    ensures Widths()[n..n + 17] == SUB_WIDTHS
  {
  }

  lemma SubTypedHere(f: seq<Field>)
    requires Typed(f, SUB_WIDTHS)
    ensures SubTyped(f, 0)
  {
    Pow2Values();
    hide Pow2;
  }

  lemma SliceTyped(plan: seq<Field>, widths: seq<nat>, n: nat, k: nat)
    requires Typed(plan, widths) && n + k <= |plan|
    ensures Typed(plan[n..n + k], widths[n..n + k])
  {
  }

  lemma SubTypedAt(plan: seq<Field>, n: nat)
    requires Typed(plan, Widths()) && (n == 8 || n == 25 || n == 42 || n == 59)
    ensures SubTyped(plan, n)
  {
    SubWidths(n);
    SliceTyped(plan, Widths(), n, 17);
    SubTypedHere(plan[n..n + 17]);
    hide Widths;
    SubTypedSlice(plan, n);
  }

  lemma SubTypedSlice(plan: seq<Field>, n: nat)
    requires n + 17 <= |plan| && SubTyped(plan[n..n + 17], 0)
    ensures SubTyped(plan, n)
  {
    hide Narrow;
    var f := plan[n..n + 17];
    assert f[0] == plan[n] && f[1] == plan[n + 1] && f[2] == plan[n + 2] && f[3] == plan[n + 3] &&
           f[4] == plan[n + 4] && f[5] == plan[n + 5] && f[6] == plan[n + 6] && f[7] == plan[n + 7] &&
           f[8] == plan[n + 8] && f[9] == plan[n + 9] && f[10] == plan[n + 10] && f[11] == plan[n + 11] &&
           f[12] == plan[n + 12] && f[13] == plan[n + 13] && f[14] == plan[n + 14] && f[15] == plan[n + 15] &&
           f[16] == plan[n + 16];
  }

  lemma LarUnique(plan: seq<Field>, n: nat, l: LarCodes, k: LarCodes)
    requires LarAt(plan, n, l) && LarAt(plan, n, k)
    ensures l == k
  {
  }

  lemma SubUnique(plan: seq<Field>, n: nat, s: SubParams, t: SubParams)
    requires SubAt(plan, n, s) && SubAt(plan, n, t)
    ensures s == t
  {
    assert s.xmc == t.xmc;
  }

  lemma FrameUnique(plan: seq<Field>, p: FrameParams, q: FrameParams)
    requires FrameAt(plan, p) && FrameAt(plan, q)
    ensures p == q
  {
    hide LarAt, SubAt;
    LarUnique(plan, 0, p.larc, q.larc);
    SubUnique(plan, 8, p.sub[0], q.sub[0]);
    SubUnique(plan, 25, p.sub[1], q.sub[1]);
    SubUnique(plan, 42, p.sub[2], q.sub[2]);
    SubUnique(plan, 59, p.sub[3], q.sub[3]);
    assert p.sub == q.sub;
  }

  // ---------------------------------------------------------------- the format as functions on bits

  function FrameFrom(plan: seq<Field>): (p: FrameParams)
    requires Typed(plan, Widths())
    ensures FrameAt(plan, p)
  {
    hide Typed, Widths, LarTyped, SubTyped, LarAt, SubAt;
    FrameTyped(plan);
    GsmCodec.FrameParams(LarsFrom(plan, 0), [SubFrom(plan, 8), SubFrom(plan, 25), SubFrom(plan, 42), SubFrom(plan, 59)])
  }

  /** The 260 bits of a frame, in the order of transmission. */
  function ParamBits(p: FrameParams): (b: seq<bool>)
    ensures |b| == 260
  {
    FieldsTyped(p);
    FrameBits();
    TotalIsLength(Widths(), Fields(p));
    Stream(Fields(p))
  }

  /** The parameters that a decoder finds in a stream of at least 260 bits, whatever they are. */
  function Parameters(bits: seq<bool>): (p: FrameParams)
    requires |bits| >= 260
  {
    FrameBits();
    FrameFrom(Parse(Widths(), bits))
  }

  lemma Recovered(p: FrameParams, rest: seq<bool>)
    ensures Parameters(ParamBits(p) + rest) == p
  {
    hide Fields, Widths, FrameFrom, Parse, Stream, FrameAt;
    FieldsTyped(p);
    FrameBits();
    StreamThenParse(Widths(), Fields(p), rest);
    FieldsAreAt(p, []);
    assert Fields(p) + [] == Fields(p);
    FrameUnique(Fields(p), p, FrameFrom(Fields(p)));
  }

  /** frame_index and frame_chain of struct gsm_state. */
  datatype Wav = Wav(index: bool, chain: nat) {
    predicate Valid() {
      chain < 16
    }
  }

  /** gsm_encode of a WAV49 stream, behind the coder: 32 bytes and then 33. */
  function Write(st: Wav, p: FrameParams): (r: (Wav, seq<byte>))
    requires st.Valid()
    ensures r.0.Valid() && r.0.index == !st.index && |r.1| == (if st.index then 33 else 32)
  {
    Pow2Values();
    var s := ParamBits(p);
    if !st.index then (Wav(true, Value(s[256..])), FromBits(s[..256]))
    else (Wav(false, st.chain), FromBits(Bits(st.chain, 4) + s))
  }

  /** gsm_decode of a WAV49 stream, before the decoder: 33 bytes and then 32. */
  function Read(st: Wav, bytes: seq<byte>): (r: (Wav, FrameParams))
    requires st.Valid() && |bytes| == (if st.index then 32 else 33)
    ensures r.0.Valid() && r.0.index == !st.index
  {
    Pow2Values();
    ByteStreamLength(bytes);
    var s := ByteStream(bytes);
    if !st.index then (Wav(true, Value(s[260..])), Parameters(s))
    else (Wav(false, st.chain), Parameters(Bits(st.chain, 4) + s))
  }

  // ---------------------------------------------------------------- round trip

  lemma SplitAt(a: seq<byte>, n: nat)
    requires n <= |a|
    ensures |ByteStream(a)| == 8 * |a|
    ensures ByteStream(a[..n]) == ByteStream(a)[..8 * n] && ByteStream(a[n..]) == ByteStream(a)[8 * n..]
  {
    ByteStreamLength(a);
    assert a == a[..n] + a[n..];
    ByteStreamConcat(a[..n], a[n..]);
    ByteStreamLength(a[..n]);
  }

  /** The two blocks of a pair hold the bits of the two frames and nothing else. */
  lemma PairBits(w: Wav, p: FrameParams, q: FrameParams)
    requires w.Valid() && !w.index
    ensures var (w1, b1) := Write(w, p);
            var (w2, b2) := Write(w1, q);
            |b1 + b2| == 65 && ByteStream(b1 + b2) == ParamBits(p) + ParamBits(q)
  {
    hide ParamBits, ByteStream, FromBits, Bits, Value;
    var sp, sq := ParamBits(p), ParamBits(q);
    var (w1, b1) := Write(w, p);
    var (w2, b2) := Write(w1, q);
    FromBitsThenStream(sp[..256]);
    FromBitsThenStream(Bits(w1.chain, 4) + sq);
    ByteStreamConcat(b1, b2);
    assert Bits(w1.chain, 4) == sp[256..];
    assert sp[..256] + (sp[256..] + sq) == sp + sq;
  }

  datatype Pair = Pair(first: FrameParams, second: FrameParams)

  function WritePair(st: Wav, ps: Pair): (r: (Wav, seq<byte>))
    requires st.Valid() && !st.index
    ensures r.0.Valid() && !r.0.index && |r.1| == 65
  {
    var (st1, b1) := Write(st, ps.first);
    var (st2, b2) := Write(st1, ps.second);
    (st2, b1 + b2)
  }

  function ReadPair(st: Wav, bytes: seq<byte>): (r: (Wav, Pair))
    requires st.Valid() && !st.index && |bytes| == 65
    ensures r.0.Valid() && !r.0.index
  {
    var (st1, p) := Read(st, bytes[..33]);
    var (st2, q) := Read(st1, bytes[33..]);
    (st2, Pair(p, q))
  }

  /** What is written as 32 and 33 bytes is read back from 33 and 32, whatever nibbles the two sides
      hold from before. */
  lemma PairRoundTrip(w: Wav, r: Wav, ps: Pair)
    requires w.Valid() && !w.index && r.Valid() && !r.index
    ensures ReadPair(r, WritePair(w, ps).1).1 == ps
  {
    hide ParamBits, ByteStream, Bits, Value, Parameters, Write;
    var bytes := WritePair(w, ps).1;
    PairBits(w, ps.first, ps.second);
    var sp, sq := ParamBits(ps.first), ParamBits(ps.second);
    var s := sp + sq;
    SplitAt(bytes, 33);
    Recovered(ps.first, sq[..4]);
    assert s[..264] == sp + sq[..4] && s[..264][260..] == sq[..4];
    Recovered(ps.second, []);
    assert sq[..4] + s[264..] == sq == sq + [];
  }

  function WriteAll(st: Wav, run: seq<Pair>): (bytes: seq<byte>)
    requires st.Valid() && !st.index
    ensures |bytes| == 65 * |run|
    decreases |run|
  {
    if run == [] then [] else
      var (st', block) := WritePair(st, run[0]);
      block + WriteAll(st', run[1..])
  }

  /** Reads the first n pairs of a stream. */
  function ReadAll(st: Wav, bytes: seq<byte>, n: nat): (run: seq<Pair>)
    requires st.Valid() && !st.index && |bytes| >= 65 * n
    ensures |run| == n
    decreases n
  {
    hide ReadPair;
    if n == 0 then [] else
      var (st', p) := ReadPair(st, bytes[..65]);
      [p] + ReadAll(st', bytes[65..], n - 1)
  }

  /** Lossless transport of every run of frame pairs. */
  lemma {:induction false} RunRoundTrip(w: Wav, r: Wav, run: seq<Pair>)
    requires w.Valid() && !w.index && r.Valid() && !r.index
    ensures ReadAll(r, WriteAll(w, run), |run|) == run
    decreases |run|
  {
    hide WritePair, ReadPair;
    if run != [] {
      var (w', block) := WritePair(w, run[0]);
      PairRoundTrip(w, r, run[0]);
      RunRoundTrip(w', ReadPair(r, block).0, run[1..]);
      var all, rest := WriteAll(w, run), WriteAll(w', run[1..]);
      assert all == block + rest;
      assert all[..65] == block && all[65..] == rest;
      assert ReadAll(r, all, |run|) == [run[0]] + ReadAll(ReadPair(r, block).0, rest, |run| - 1);
    }
  }

  // ---------------------------------------------------------------- no spare bits

  lemma LarAtIs(plan: seq<Field>, n: nat, l: LarCodes)
    requires LarAt(plan, n, l)
    ensures plan[n..n + 8] == LarFields(l)
  {
  }

  lemma SubAtIs(plan: seq<Field>, n: nat, s: SubParams)
    requires SubAt(plan, n, s)
    ensures plan[n..n + 17] == SubFieldList(s)
  {
  }

  lemma AtIs(plan: seq<Field>, p: FrameParams)
    requires |plan| == 76 && FrameAt(plan, p)
    ensures plan == Fields(p)
  {
    hide LarAt, SubAt, LarFields, SubFieldList;
    LarAtIs(plan, 0, p.larc);
    SubAtIs(plan, 8, p.sub[0]);
    SubAtIs(plan, 25, p.sub[1]);
    SubAtIs(plan, 42, p.sub[2]);
    SubAtIs(plan, 59, p.sub[3]);
    FieldSlices(plan);
  }

  lemma FieldSlices(plan: seq<Field>)
    requires |plan| == 76
    ensures plan == plan[0..8] + plan[8..25] + plan[25..42] + plan[42..59] + plan[59..76]
  {
  }

  lemma Reproduced(bits: seq<bool>)
    requires |bits| >= 260
    ensures ParamBits(Parameters(bits)) == bits[..260]
  {
    hide Fields, Widths, FrameFrom, Parse, Stream, FrameAt;
    FrameBits();
    ParseThenStream(Widths(), bits);
    var plan := Parse(Widths(), bits);
    AtIs(plan, FrameFrom(plan));
  }

  /** Any 65 bytes at all are a pair of frames, and are written again as they were read. */
  lemma PairBytesRoundTrip(w: Wav, r: Wav, bytes: seq<byte>)
    requires w.Valid() && !w.index && r.Valid() && !r.index && |bytes| == 65
    ensures WritePair(w, ReadPair(r, bytes).1).1 == bytes
  {
    hide ParamBits, ByteStream, FromBits, Bits, Value, Parameters, Write;
    SplitAt(bytes, 33);
    var s := ByteStream(bytes);
    var ps := ReadPair(r, bytes).1;
    Reproduced(s[..264]);
    var s2 := s[..264][260..] + s[264..];
    Reproduced(s2);
    PairBits(w, ps.first, ps.second);
    assert s == s[..264][..260] + s2[..260];
    StreamThenFromBits(bytes);
    StreamThenFromBits(WritePair(w, ps).1);
  }

  // ---------------------------------------------------------------- the array of 76 words

  /** The array of gsm_implode and gsm_explode. */
  type Array76 = a: seq<word> | |a| == 76 witness seq(76, _ => 0)

  function ArrayOf(p: FrameParams): (a: Array76) {
    p.larc + SubWords(p.sub[0]) + SubWords(p.sub[1]) + SubWords(p.sub[2]) + SubWords(p.sub[3])
  }

  function ArrayCut(a: Array76): (p: FrameParams) {
    hide LarCut, SubCut;
    GsmCodec.FrameParams(LarCut(a[..8]), [SubCut(a[8..25]), SubCut(a[25..42]), SubCut(a[42..59]), SubCut(a[59..76])])
  }

  /** The plan holds the array, cut to field widths, from field n on. */
  ghost predicate ArrayAt(plan: seq<Field>, n: nat, a: Array76) {
    LarWordsAt(plan, n, a[..8]) && SubWordsAt(plan, n + 8, a[8..25]) && SubWordsAt(plan, n + 25, a[25..42]) &&
    SubWordsAt(plan, n + 42, a[42..59]) && SubWordsAt(plan, n + 59, a[59..76])
  }

  lemma ArrayParts(p: FrameParams)
    ensures var a := ArrayOf(p);
            a[..8] == p.larc && a[8..25] == SubWords(p.sub[0]) && a[25..42] == SubWords(p.sub[1]) &&
            a[42..59] == SubWords(p.sub[2]) && a[59..76] == SubWords(p.sub[3])
  {
    hide SubWords;
  }

  /** The parameters of a frame are not changed by the cut. */
  lemma ArrayCutOf(p: FrameParams)
    ensures ArrayCut(ArrayOf(p)) == p
  {
    hide ArrayOf, LarCut, SubCut, SubWords;
    ArrayParts(p);
    LarCutOfCodes(p.larc);
    SubCutOfParams(p.sub[0]);
    SubCutOfParams(p.sub[1]);
    SubCutOfParams(p.sub[2]);
    SubCutOfParams(p.sub[3]);
    assert ArrayCut(ArrayOf(p)).sub == p.sub;
  }

  /** Two frames imploded one after the other: the words that come back from gsm_explode are those of
      the source cut to their fields, and so the source itself exactly if all of its words fit. */
  lemma ArraysRoundTrip(w: Wav, r: Wav, a: Array76, b: Array76)
    requires w.Valid() && !w.index && r.Valid() && !r.index
    ensures var ps := ReadPair(r, WritePair(w, Pair(ArrayCut(a), ArrayCut(b))).1).1;
            ps == Pair(ArrayCut(a), ArrayCut(b)) &&
            (ArrayOf(ps.first) == a <==> ArrayFits(a)) && (ArrayOf(ps.second) == b <==> ArrayFits(b))
  {
    hide WritePair, ReadPair, ArrayOf, ArrayCut, ArrayFits;
    PairRoundTrip(w, r, Pair(ArrayCut(a), ArrayCut(b)));
    KeptIff(a);
    KeptIff(b);
  }

  predicate LarWordsFit(l: seq<word>)
    requires |l| == 8
  {
    0 <= l[0] < 64 && 0 <= l[1] < 64 && 0 <= l[2] < 32 && 0 <= l[3] < 32 && 0 <= l[4] < 16 && 0 <= l[5] < 16 &&
    0 <= l[6] < 8 && 0 <= l[7] < 8
  }

  predicate SubWordsFit(s: seq<word>)
    requires |s| == 17
  {
    0 <= s[0] < 128 && 0 <= s[1] < 4 && 0 <= s[2] < 4 && 0 <= s[3] < 64 && forall i :: 4 <= i < 17 ==> 0 <= s[i] < 8
  }

  predicate ArrayFits(a: Array76) {
    LarWordsFit(a[..8]) && SubWordsFit(a[8..25]) && SubWordsFit(a[25..42]) && SubWordsFit(a[42..59]) &&
    SubWordsFit(a[59..76])
  }

  lemma LarKeptIff(l: seq<word>)
    requires |l| == 8
    ensures LarCut(l) == l <==> LarWordsFit(l)
  {
    Pow2Values();
    hide Pow2, Cut;
    CutKept(l[0], 6);
    CutKept(l[1], 6);
    CutKept(l[2], 5);
    CutKept(l[3], 5);
    CutKept(l[4], 4);
    CutKept(l[5], 4);
    CutKept(l[6], 3);
    CutKept(l[7], 3);
    var c := LarCut(l);
    assert c == l <==> c[0] == l[0] && c[1] == l[1] && c[2] == l[2] && c[3] == l[3] && c[4] == l[4] && c[5] == l[5] &&
                       c[6] == l[6] && c[7] == l[7];
  }

  lemma SubKeptIff(s: seq<word>)
    requires |s| == 17
    ensures SubWords(SubCut(s)) == s <==> SubWordsFit(s)
  {
    Pow2Values();
    hide Pow2, Cut;
    var c := SubWords(SubCut(s));
    assert forall i :: 4 <= i < 17 ==> c[i] == SubCut(s).xmc[i - 4] == Cut(s[i], 3);
    CutKept(s[0], 7);
    CutKept(s[1], 2);
    CutKept(s[2], 2);
    CutKept(s[3], 6);
    forall i | 4 <= i < 17
      ensures c[i] == s[i] <==> 0 <= s[i] < 8
    {
      CutKept(s[i], 3);
    }
  }

  lemma KeptIff(a: Array76)
    ensures ArrayOf(ArrayCut(a)) == a <==> ArrayFits(a)
  {
    hide ArrayOf, LarCut, SubCut, SubWords, LarWordsFit, SubWordsFit;
    ArrayParts(ArrayCut(a));
    LarKeptIff(a[..8]);
    SubKeptIff(a[8..25]);
    SubKeptIff(a[25..42]);
    SubKeptIff(a[42..59]);
    SubKeptIff(a[59..76]);
    SamePartsIff(ArrayOf(ArrayCut(a)), a);
  }

  lemma SamePartsIff(a: Array76, b: Array76)
    ensures a == b <==> a[..8] == b[..8] && a[8..25] == b[8..25] && a[25..42] == b[25..42] && a[42..59] == b[42..59] &&
                        a[59..76] == b[59..76]
  {
    assert a == a[..8] + a[8..25] + a[25..42] + a[42..59] + a[59..76];
    assert b == b[..8] + b[8..25] + b[25..42] + b[42..59] + b[59..76];
  }

  // ---------------------------------------------------------------- the packers

  class Packer {
    var frameIndex: bool
    var frameChain: nat

    ghost function State(): Wav
      reads this
    {
      Wav(frameIndex, frameChain)
    }

    constructor ()
      ensures State() == Wav(false, 0)
    {
      frameIndex, frameChain := false, 0;
    }

    /** The WAV49 part of gsm_encode. */
    method Encode(p: FrameParams, c: array<byte>)
      requires State().Valid() && c.Length == 33
      modifies this, c
      ensures var (st, bytes) := old(Write(State(), p));
              State() == st && c[..|bytes|] == bytes
    {
      hide ArrayOf, ArrayCut, ParamBits;
      ArrayCutOf(p);
      frameIndex := !frameIndex;
      if frameIndex {
        frameChain := EncodeFirst(ArrayOf(p), c);
      } else {
        EncodeSecond(ArrayOf(p), c, frameChain);
      }
    }

    /** The WAV49 part of gsm_decode. */
    method Decode(c: seq<byte>) returns (p: FrameParams)
      requires State().Valid() && |c| == (if frameIndex then 32 else 33)
      modifies this
      ensures (State(), p) == old(Read(State(), c))
    {
      frameIndex := !frameIndex;
      if frameIndex {
        p, frameChain := DecodeFirst(c);
      } else {
        p := DecodeSecond(c, frameChain);
      }
    }

    /** The WAV49 part of gsm_implode, for 76 words of any values.  It leaves it to its caller to
        change frame_index: true is for the frame that is being written. */
    method Implode(source: Array76, c: array<byte>)
      requires State().Valid() && c.Length == 33
      modifies this`frameChain, c
      ensures var (st, bytes) := old(Write(Wav(!frameIndex, frameChain), ArrayCut(source)));
              State() == st && c[..|bytes|] == bytes
    {
      hide ArrayCut, ParamBits;
      if frameIndex {
        frameChain := EncodeFirst(source, c);
      } else {
        EncodeSecond(source, c, frameChain);
      }
    }

    /** The WAV49 part of gsm_explode. */
    method Explode(c: seq<byte>, target: array<word>)
      requires State().Valid() && |c| == (if frameIndex then 33 else 32) && target.Length == 76
      modifies this`frameChain, target
      ensures var (st, p) := old(Read(Wav(!frameIndex, frameChain), c));
              State() == st && target[..] == ArrayOf(p)
    {
      hide ArrayOf, Parameters;
      var p;
      if frameIndex {
        p, frameChain := DecodeFirst(c);
      } else {
        p := DecodeSecond(c, frameChain);
      }
      var words := ArrayOf(p);
      for i := 0 to 76
        modifies target
        invariant target[..i] == words[..i]
      {
        target[i] := words[i];
      }
      assert target[..76] == target[..] && words[..76] == words;
    }
  }

  /** Ghost set-up of the plan that ends a first frame. */
  lemma FirstPlan(p: FrameParams)
    ensures var plan := Fields(p) + [Field(0, 4)];
            Short(plan) && FrameAt(plan, p) && Stream(plan) == ParamBits(p) + Bits(0, 4)
  {
    hide Bits, LarFields, SubFieldList, FrameAt;
    FieldsTyped(p);
    FieldsAreAt(p, [Field(0, 4)]);
    WidthsAreShort();
    StreamAppend(Fields(p), Field(0, 4));
    Pow2Values();
  }

  lemma WidthsAreShort()
    ensures forall i :: 0 <= i < 76 ==> Widths()[i] <= 16
  {
  }

  /** The fields of a frame are the words of the array. */
  lemma WordsAreAt(plan: seq<Field>, a: Array76)
    ensures FrameAt(plan, ArrayCut(a)) ==> ArrayAt(plan, 0, a)
    ensures SecondAt(plan, ArrayCut(a)) ==> ArrayAt(plan, 1, a)
  {
    hide LarAt, SubAt, LarCut, SubCut, LarWordsAt, SubWordsAt;
    forall n: nat, l: seq<word> | |l| == 8 && LarAt(plan, n, LarCut(l))
      ensures LarWordsAt(plan, n, l)
    {
      LarWordsAre(plan, n, l);
    }
    forall n: nat, x: seq<word> | |x| == 17 && SubAt(plan, n, SubCut(x))
      ensures SubWordsAt(plan, n, x)
    {
      SubWordsAre(plan, n, x);
    }
  }

  /** A first frame: 32 bytes, and its last four bits alone in byte 33. */
  method EncodeFirst(a: Array76, c: array<byte>) returns (chain: byte)
    requires c.Length == 33
    modifies c
    ensures var bits := ParamBits(ArrayCut(a)); c[..32] == FromBits(bits[..256]) && chain == Value(bits[256..])
  {
    hide Fields, ParamBits, FromBits, BitWriter.Valid, FrameAt, ArrayAt, ArrayCut;
    ghost var p := ArrayCut(a);
    ghost var plan := Fields(p) + [Field(0, 4)];
    FirstPlan(p);
    WordsAreAt(plan, a);
    var w := new BitWriter(c, plan);
    WriteFirst(w, a);
    FirstBlock(c[..], p);
    chain := c[32];
  }

  method WriteFirst(w: BitWriter, a: Array76)
    requires w.Valid() && w.n == w.pos == w.count == 0 && w.out.Length == 33
    requires |w.plan| == 77 && ArrayAt(w.plan, 0, a) && w.plan[76] == Field(0, 4)
    modifies w`sr, w`pos, w`n, w`count, w.out
    ensures w.Valid() && ByteStream(w.out[..]) == Stream(w.plan)
  {
    hide BitWriter.Valid, LarWordsAt, SubWordsAt, Cut;
    WriteLars1(w, a[..8]);
    for k := 0 to 4
      invariant w.Valid() && w.n == 8 + 17 * k && w.pos == 4 + 7 * k && w.count == 8 * w.pos + 4
    {
      PartAt(w.plan, 0, a, k);
      WriteSub1(w, a[8 + 17 * k..25 + 17 * k]);
    }
    CutOfShort(0, 4);
    w.Put(0, 4);
    w.Emit(8);
    w.Complete();
    assert w.out[..33] == w.out[..];
  }

  lemma PartAt(plan: seq<Field>, n: nat, a: Array76, k: nat)
    requires ArrayAt(plan, n, a) && k < 4
    ensures SubWordsAt(plan, n + 8 + 17 * k, a[8 + 17 * k..25 + 17 * k])
  {
    hide SubWordsAt, LarWordsAt;
    assert k == 0 || k == 1 || k == 2 || k == 3;
  }

  /** What 33 bytes that hold a frame and four zero bits are. */
  lemma FirstBlock(c: seq<byte>, p: FrameParams)
    requires |c| == 33 && ByteStream(c) == ParamBits(p) + Bits(0, 4)
    ensures c[..32] == FromBits(ParamBits(p)[..256]) && c[32] == Value(ParamBits(p)[256..])
  {
    hide ParamBits, ByteStream, FromBits, Bits, Value;
    var s := ParamBits(p);
    SplitAt(c, 32);
    assert (s + Bits(0, 4))[..256] == s[..256];
    StreamThenFromBits(c[..32]);
    assert c[32..] == [c[32]];
    OneByteStream(c[32]);
    var v := Value(s[256..]);
    assert Bits(c[32], 8) == s[256..] + Bits(0, 4);
    Pow2Values();
    BitsJoin(v, 4, 0, 4);
    ShlIsProduct(0, 4);
    BitsInjective(c[32], v, 8);
  }

  /** A second frame: the nibble of the first one, and then 260 bits. */
  method EncodeSecond(a: Array76, c: array<byte>, chain: nat)
    requires chain < 16 && c.Length == 33
    modifies c
    ensures c[..] == FromBits(Bits(chain, 4) + ParamBits(ArrayCut(a)))
  {
    hide Fields, ParamBits, FromBits, BitWriter.Valid, SecondAt, ArrayAt, ArrayCut;
    ghost var p := ArrayCut(a);
    ghost var plan := [Field(chain, 4)] + Fields(p);
    SecondPlan(p, chain);
    WordsAreAt(plan, a);
    var w := new BitWriter(c, plan);
    WriteSecond(w, a, chain);
    StreamThenFromBits(c[..]);
  }

  method WriteSecond(w: BitWriter, a: Array76, chain: nat)
    requires w.Valid() && w.n == w.pos == w.count == 0 && w.out.Length == 33 && chain < 16
    requires |w.plan| == 77 && w.plan[0] == Field(chain, 4) && ArrayAt(w.plan, 1, a)
    modifies w`sr, w`pos, w`n, w`count, w.out
    ensures w.Valid() && ByteStream(w.out[..]) == Stream(w.plan)
  {
    Pow2Values();
    hide BitWriter.Valid, LarWordsAt, SubWordsAt, Cut, Pow2;
    CutOfShort(chain, 4);
    w.Put(chain, 4);
    WriteLars2(w, a[..8]);
    for k := 0 to 4
      invariant w.Valid() && w.n == 9 + 17 * k && w.pos == 5 + 7 * k && w.count == 8 * w.pos
    {
      PartAt(w.plan, 1, a, k);
      WriteSub2(w, a[8 + 17 * k..25 + 17 * k]);
    }
    w.Complete();
    assert w.out[..33] == w.out[..];
  }

  /** The fields of the frame, one place later. */
  ghost predicate SecondAt(plan: seq<Field>, p: FrameParams) {
    77 <= |plan| && LarAt(plan, 1, p.larc) && SubAt(plan, 9, p.sub[0]) && SubAt(plan, 26, p.sub[1]) &&
    SubAt(plan, 43, p.sub[2]) && SubAt(plan, 60, p.sub[3])
  }

  lemma SecondPlan(p: FrameParams, chain: nat)
    requires chain < 16
    ensures var plan := [Field(chain, 4)] + Fields(p);
            Short(plan) && SecondAt(plan, p) && Stream(plan) == Bits(chain, 4) + ParamBits(p)
  {
    hide Bits, Fields, Widths, LarFields, SubFieldList, LarAt, SubAt, Stream, Short;
    FieldsAreAt(p, []);
    assert Fields(p) + [] == Fields(p);
    SecondIsShort(p, chain);
    StreamPrepend(Field(chain, 4), Fields(p));
    LarMoves(Field(chain, 4), Fields(p), p.larc);
    SubMoves(Field(chain, 4), Fields(p), 8, p.sub[0]);
    SubMoves(Field(chain, 4), Fields(p), 25, p.sub[1]);
    SubMoves(Field(chain, 4), Fields(p), 42, p.sub[2]);
    SubMoves(Field(chain, 4), Fields(p), 59, p.sub[3]);
  }

  lemma SecondIsShort(p: FrameParams, chain: nat)
    requires chain < 16
    ensures Short([Field(chain, 4)] + Fields(p))
  {
    hide Fields, Widths;
    FieldsTyped(p);
    WidthsAreShort();
    Pow2Values();
  }

  lemma LarMoves(f: Field, plan: seq<Field>, l: LarCodes)
    requires LarAt(plan, 0, l)
    ensures LarAt([f] + plan, 1, l)
  {
  }

  lemma SubMoves(f: Field, plan: seq<Field>, n: nat, s: SubParams)
    requires SubAt(plan, n, s)
    ensures SubAt([f] + plan, n + 1, s)
  {
  }

  method DecodeFirst(c: seq<byte>) returns (p: FrameParams, chain: nat)
    requires |c| == 33
    ensures |ByteStream(c)| == 264
    ensures p == Parameters(ByteStream(c)) && chain == Value(ByteStream(c)[260..])
  {
    hide ByteStream, Value, Parse, Widths, FrameFrom, BitReader.Valid, FrameAt;
    ByteStreamLength(c);
    FrameBits();
    ghost var bits, plan := ByteStream(c), Parse(Widths(), ByteStream(c));
    PlanAhead(0, 0, c);
    var r := new BitReader(c, 0, 0, plan, bits[260..]);
    p := ReadFirst(r);
    FrameUnique(plan, p, FrameFrom(plan));
    r.Complete();
    Pow2Values();
    chain := And(r.sr, 15);
    AndMask(r.sr, 4);
    ValueOfBits(chain, 4);
  }

  /** The reader's view of a block before the first field: the bits carried in and the bytes hold
      the fields that are parsed from them, and a tail. */
  lemma PlanAhead(chain: nat, count: nat, c: seq<byte>)
    requires chain < Pow2(count) && 260 <= count + |ByteStream(c)| && Total(Widths()) == 260
    ensures var bits := Bits(chain, count) + ByteStream(c);
            var plan := Parse(Widths(), bits);
            Typed(plan, Widths()) && Ahead(chain, count, c, plan, bits[260..])
    ensures count == 0 ==> Bits(chain, count) + ByteStream(c) == ByteStream(c)
  {
    hide Widths, Parse, Bits, Stream, ByteStream, Total, Pow2;
    var bits := Bits(chain, count) + ByteStream(c);
    ParseThenStream(Widths(), bits);
    if count == 0 {
      assert Bits(chain, count) + ByteStream(c) == ByteStream(c);
    }
    assert bits == bits[..260] + bits[260..];
  }

  method ReadFirst(r: BitReader) returns (p: FrameParams)
    requires r.Valid() && r.n == r.pos == r.count == 0 && |r.data| == 33 && Typed(r.plan, Widths())
    modifies r
    ensures r.Valid() && FrameAt(r.plan, p) && r.n == 76 && r.pos == 33 && r.count == 4
  {
    hide BitReader.Valid, LarAt, SubAt, LarTyped, SubTyped, Widths;
    FrameTyped(r.plan);
    var l := ReadLars1(r);
    var s0 := ReadSub1(r);
    var s1 := ReadSub1(r);
    var s2 := ReadSub1(r);
    var s3 := ReadSub1(r);
    p := GsmCodec.FrameParams(l, [s0, s1, s2, s3]);
  }

  lemma FrameTyped(plan: seq<Field>)
    requires Typed(plan, Widths())
    ensures |plan| == 76
    ensures LarTyped(plan, 0) && SubTyped(plan, 8) && SubTyped(plan, 25) && SubTyped(plan, 42) && SubTyped(plan, 59)
  {
    hide SubTyped, LarTyped, Widths;
    LarTypedAt(plan);
    SubTypedAt(plan, 8);
    SubTypedAt(plan, 25);
    SubTypedAt(plan, 42);
    SubTypedAt(plan, 59);
  }

  method DecodeSecond(c: seq<byte>, chain: nat) returns (p: FrameParams)
    requires |c| == 32 && chain < 16
    ensures |ByteStream(c)| == 256 && p == Parameters(Bits(chain, 4) + ByteStream(c))
  {
    hide ByteStream, Bits, Parse, Widths, FrameFrom, BitReader.Valid, FrameAt;
    ByteStreamLength(c);
    FrameBits();
    Pow2Values();
    ghost var bits := Bits(chain, 4) + ByteStream(c);
    ghost var plan := Parse(Widths(), bits);
    PlanAhead(chain, 4, c);
    var r := new BitReader(c, chain, 4, plan, bits[260..]);
    p := ReadSecond(r);
    FrameUnique(plan, p, FrameFrom(plan));
  }

  method ReadSecond(r: BitReader) returns (p: FrameParams)
    requires r.Valid() && r.n == r.pos == 0 && r.count == 4 && |r.data| == 32 && Typed(r.plan, Widths())
    modifies r
    ensures r.Valid() && FrameAt(r.plan, p)
  {
    hide BitReader.Valid, LarAt, SubAt, LarTyped, SubTyped, Widths;
    FrameTyped(r.plan);
    var l := ReadLars2(r);
    var s0 := ReadSub2(r);
    var s1 := ReadSub2(r);
    var s2 := ReadSub2(r);
    var s3 := ReadSub2(r);
    p := GsmCodec.FrameParams(l, [s0, s1, s2, s3]);
  }
}
