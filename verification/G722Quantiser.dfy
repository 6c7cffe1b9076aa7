/** The quantisers of the G.722 codec and the codes they produce: Block 1L and 1H of
  g722/g722_encode.c, and the inverse quantisers of g722/g722_decode.c for 8, 7 and 6 bits.

  The main result is the accuracy of the low band: at every rate, the decoder's level lies in the
  same group of decision cells as the difference that was quantised. */
module G722Quantiser {
  import opened Words
  import opened BitStreams
  import opened G722Band

  // ---------------------------------------------------------------- low band, encoder

  const Q6: seq<int> := [
    0, 35, 72, 110, 150, 190, 233, 276, 323, 370, 422, 473, 530, 587, 650, 714,
    786, 858, 940, 1023, 1121, 1219, 1339, 1458, 1612, 1765, 1980, 2195, 2557, 2919, 0, 0]
  const ILN: seq<int> := [
    0, 63, 62, 31, 30, 29, 28, 27, 26, 25, 24, 23, 22, 21, 20, 19, 18, 17, 16, 15, 14, 13, 12, 11, 10, 9, 8, 7, 6, 5, 4, 0]
  const ILP: seq<int> := [
    0, 61, 60, 59, 58, 57, 56, 55, 54, 53, 52, 51, 50, 49, 48, 47, 46, 45, 44, 43, 42, 41, 40, 39, 38, 37, 36, 35, 34, 33,
    32, 0]

  /** The magnitude that the search compares: el, or -(el + 1) for a negative el. */
  function Magnitude(el: word): (wd: nat)
    ensures wd <= 32767
  {
    if el >= 0 then el else -(el + 1)
  }

  lemma Q6Range(i: nat)
    requires i < 30
    ensures 0 <= Q6[i] <= 2919
    ensures i > 0 ==> Q6[i - 1] < Q6[i]
  {
  }

  /** The decision threshold q6[i] * det >> 12. */
  function Threshold(det: Det, i: nat): (t: nat)
    requires i < 30
    ensures t <= 11676
  {
    Q6Range(i);
    var q := Q6[i];
    TimesIsProduct(q, det);
    ProductBound(q, det, 2919, 16384);
    MulMono(0, q, det);
    Times(q, det) / 4096
  }

  /** The search: the first cell from i on whose threshold is above wd, or 30. */
  function CellFrom(wd: int, det: Det, i: nat): (cell: nat)
    requires 1 <= i <= 30
    ensures i <= cell <= 30
    decreases 30 - i, wd
  {
    if i == 30 || wd < Threshold(det, i) then i else CellFrom(wd, det, i + 1)
  }

  function Cell(el: word, det: Det): (cell: nat)
    ensures 1 <= cell <= 30
  {
    CellFrom(Magnitude(el), det, 1)
  }

  /** The search ends in the cell that contains the magnitude. */
  lemma CellContains(el: word, det: Det)
    ensures Threshold(det, Cell(el, det) - 1) <= Magnitude(el)
    ensures Cell(el, det) < 30 ==> Magnitude(el) < Threshold(det, Cell(el, det))
  {
    TimesIsProduct(0, det);
    assert Threshold(det, 0) == 0;
    CellFromContains(Magnitude(el), det, 1);
  }

  lemma {:induction false} CellFromContains(wd: nat, det: Det, i: nat)
    requires 1 <= i <= 30 && Threshold(det, i - 1) <= wd
    ensures Threshold(det, CellFrom(wd, det, i) - 1) <= wd
    ensures CellFrom(wd, det, i) < 30 ==> wd < Threshold(det, CellFrom(wd, det, i))
    decreases 30 - i
  {
    hide Threshold;
    if i < 30 && wd >= Threshold(det, i) {
      CellFromContains(wd, det, i + 1);
    }
  }

  lemma {:induction false} ThresholdsIncrease(det: Det, i: nat, j: nat)
    requires i <= j < 30
    ensures Threshold(det, i) <= Threshold(det, j)
    decreases j
  {
    if i < j {
      ThresholdsIncrease(det, i, j - 1);
      Q6Range(j);
      var q, p := Q6[j], Q6[j - 1];
      TimesIsProduct(q, det);
      TimesIsProduct(p, det);
      MulMono(p, q, det);
    }
  }

  /** The six bits of the low band. */
  function LowCode(el: word, det: Det): (ilow: nat)
    ensures 4 <= ilow < 64
  {
    var i := Cell(el, det);
    LowCodeRange(i);
    if el < 0 then ILN[i] else ILP[i]
  }

  lemma LowCodeRange(i: nat)
    requires 1 <= i <= 30
    ensures 4 <= ILN[i] < 64 && 4 <= ILP[i] < 64
  {
  }

  /** Block 1L, QUANTL. */
  method QuantiseLow(el: word, det: Det) returns (ilow: nat)
    ensures ilow == LowCode(el, det)
  {
    var wd: int32 := if el >= 0 then el else -(el + 1);
    var i := 1;
    while i < 30
      invariant 1 <= i <= 30 && CellFrom(wd, det, i) == CellFrom(wd, det, 1)
    {
      var wd1: int32 := Threshold(det, i);
      if wd < wd1 {
        break;
      }
      i := i + 1;
    }
    LowCodeRange(i);
    ilow := if el < 0 then ILN[i] else ILP[i];
  }

  // ---------------------------------------------------------------- high band, encoder

  /** Block 1H, QUANTH. */
  function HighCode(eh: word, det: Det): (ihigh: nat)
    ensures ihigh < 4
  {
    var far := Magnitude(eh) >= 564 * det / 4096;
    if eh < 0 then (if far then 0 else 1) else (if far then 2 else 3)
  }

  /** The level from which both sides adapt has the sign of the difference, and is the outer one
      exactly for differences beyond the threshold. */
  lemma HighLevelMatches(eh: word, det: Det)
    ensures Level(High, HighCode(eh, det)) > 0 <==> eh >= 0
    ensures Magnitude(Level(High, HighCode(eh, det))) >= 7407 <==> Magnitude(eh) >= 564 * det / 4096
  {
  }

  const IHN: seq<int> := [0, 1, 0]
  const IHP: seq<int> := [0, 3, 2]

  method QuantiseHigh(eh: word, det: Det) returns (ihigh: nat)
    ensures ihigh == HighCode(eh, det)
  {
    var wd: int32 := if eh >= 0 then eh else -(eh + 1);
    var wd1: int32 := 564 * det / 4096;
    var mih := if wd >= wd1 then 2 else 1;
    ihigh := if eh < 0 then IHN[mih] else IHP[mih];
  }

  // ---------------------------------------------------------------- the transmitted code

  /** Bits per sample. */
  type Rate = b: int | 6 <= b <= 8 witness 8

  /** ((ihigh << 6) | ilow) >> (8 - bits_per_sample). */
  function Code(bits: Rate, ilow: nat, ihigh: nat): (code: nat)
    requires ilow < 64 && ihigh < 4
    ensures code < Pow2(bits)
  {
    CodeValue(bits, ilow, ihigh);
    Shr(Or(ilow, Shl(ihigh, 6)), 8 - bits)
  }

  lemma CodeValue(bits: Rate, ilow: nat, ihigh: nat)
    requires ilow < 64 && ihigh < 4
    ensures Shr(Or(ilow, Shl(ihigh, 6)), 8 - bits) == (ilow + 64 * ihigh) / Pow2(8 - bits) < Pow2(bits)
  {
    hide Or, Shl, Shr;
    var n: nat := 6;
    Pow2Values();
    OrAbove(ilow, n, ihigh);
    ShlIsProduct(ihigh, n);
    ShrIsDivision(ilow + 64 * ihigh, 8 - bits);
    RatePowers(bits);
  }

  lemma RatePowers(bits: Rate)
    ensures bits == 6 ==> Pow2(bits) == 64 && Pow2(8 - bits) == 4 && Pow2(bits - 2) == 16 && Pow2(bits - 6) == 1
    ensures bits == 7 ==> Pow2(bits) == 128 && Pow2(8 - bits) == 2 && Pow2(bits - 2) == 32 && Pow2(bits - 6) == 2
    ensures bits == 8 ==> Pow2(bits) == 256 && Pow2(8 - bits) == 1 && Pow2(bits - 2) == 64 && Pow2(bits - 6) == 4
  {
    Pow2Values();
  }

  /** The bits of a code from which the decoder's level, and both sides' adaptation, are taken. */
  function LowIndex(bits: Rate, code: nat): (i: nat)
    ensures i < Pow2(bits - 2)
  {
    AndIsRemainder(code, bits - 2);
    And(code, Pow2(bits - 2) - 1)
  }

  function Ril(bits: Rate, code: nat): (ril: nat)
    ensures ril < 16
  {
    RilValue(bits, LowIndex(bits, code));
    Shr(LowIndex(bits, code), bits - 6)
  }

  lemma RilValue(bits: Rate, i: nat)
    requires i < Pow2(bits - 2)
    ensures Shr(i, bits - 6) == i / Pow2(bits - 6) < 16
  {
    Pow2Values();
    ShrIsDivision(i, bits - 6);
    assert bits == 6 || bits == 7 || bits == 8;
  }

  function HighIndex(bits: Rate, code: nat): (ihigh: nat)
    ensures ihigh < 4
  {
    Pow2Values();
    var n: nat := 2;
    ShrIsDivision(code, bits - 2);
    DivBounds(code, Pow2(bits - 2), code / Pow2(bits - 2));
    AndIsRemainder(Shr(code, bits - 2), n);
    And(Shr(code, bits - 2), Pow2(n) - 1)
  }

  /** At every rate the decoder finds the four low-band bits and the high-band bits with which the
      encoder adapts, whatever the bits above the code. */
  lemma CodeSplits(bits: Rate, ilow: nat, ihigh: nat)
    requires ilow < 64 && ihigh < 4
    ensures var code := Code(bits, ilow, ihigh);
            LowIndex(bits, code) == ilow / Pow2(8 - bits) && Ril(bits, code) == ilow / 4 &&
            HighIndex(bits, code) == ihigh
  {
    hide Pow2, Code, LowIndex, Ril, HighIndex;
    var code := Code(bits, ilow, ihigh);
    CodeIs(bits, ilow, ihigh);
    RatePowers(bits);
    LowValues(bits, code);
    HighValue(bits, code);
    SplitArithmetic(bits, ilow, ihigh);
  }

  lemma CodeIs(bits: Rate, ilow: nat, ihigh: nat)
    requires ilow < 64 && ihigh < 4
    ensures Code(bits, ilow, ihigh) == (ilow + 64 * ihigh) / Pow2(8 - bits)
  {
    CodeValue(bits, ilow, ihigh);
  }

  lemma LowValues(bits: Rate, code: nat)
    ensures LowIndex(bits, code) == code % Pow2(bits - 2)
    ensures Ril(bits, code) == LowIndex(bits, code) / Pow2(bits - 6)
  {
    hide And, Shr, Pow2;
    AndIsRemainder(code, bits - 2);
    RilValue(bits, LowIndex(bits, code));
  }

  lemma SplitArithmetic(bits: Rate, ilow: nat, ihigh: nat)
    requires ilow < 64 && ihigh < 4
    ensures bits == 8 ==> (ilow + 64 * ihigh) / 1 % 64 == ilow && (ilow + 64 * ihigh) / 1 / 64 % 4 == ihigh
    ensures bits == 7 ==> (ilow + 64 * ihigh) / 2 % 32 == ilow / 2 && ilow / 2 / 2 == ilow / 4 &&
                          (ilow + 64 * ihigh) / 2 / 32 % 4 == ihigh
    ensures bits == 6 ==> (ilow + 64 * ihigh) / 4 % 16 == ilow / 4 && (ilow + 64 * ihigh) / 4 / 16 % 4 == ihigh
  {
    var v := ilow + 64 * ihigh;
    match bits {
      case 8 => DivUnique(v, 64, ihigh, ilow);
      case 7 =>
        DivUnique(v, 2, 32 * ihigh + ilow / 2, ilow % 2);
        DivUnique(v / 2, 32, ihigh, ilow / 2);
      case _ =>
        DivUnique(v, 4, 16 * ihigh + ilow / 4, ilow % 4);
        DivUnique(v / 4, 16, ihigh, ilow / 4);
    }
  }

  lemma HighValue(bits: Rate, code: nat)
    ensures HighIndex(bits, code) == code / Pow2(bits - 2) % 4
  {
    hide And, Shr;
    var n: nat := 2;
    Pow2Values();
    ShrIsDivision(code, bits - 2);
    AndIsRemainder(Shr(code, bits - 2), n);
  }

  // ---------------------------------------------------------------- inverse quantisers of the decoder

  const QM5: seq<int> := [
    -280, -280, -23352, -17560, -14120, -11664, -9752, -8184, -6864, -5712, -4696, -3784, -2960, -2208, -1520, -880,
    23352, 17560, 14120, 11664, 9752, 8184, 6864, 5712, 4696, 3784, 2960, 2208, 1520, 880, 280, -280]
  const QM6_NEGATIVE: seq<int> := [
    -136, -136, -136, -136, -24808, -21904, -19008, -16704, -14984, -13512, -12280, -11192, -10232, -9360, -8576, -7856,
    -7192, -6576, -6000, -5456, -4944, -4464, -4008, -3576, -3168, -2776, -2400, -2032, -1688, -1360, -1040, -728]
  const QM6_POSITIVE: seq<int> := [
    24808, 21904, 19008, 16704, 14984, 13512, 12280, 11192, 10232, 9360, 8576, 7856, 7192, 6576, 6000, 5456,
    4944, 4464, 4008, 3576, 3168, 2776, 2400, 2032, 1688, 1360, 1040, 728, 432, 136, -432, -136]
  const QM6: seq<int> := QM6_NEGATIVE + QM6_POSITIVE

  /** The level that the decoder outputs for the low-band bits of a code. */
  function OutputLevel(bits: Rate, index: nat): (q: word)
    requires index < Pow2(bits - 2)
    ensures Within(q, 24808)
  {
    RatePowers(bits);
    OutputLevelRange(index);
    if bits == 8 then QM6[index] else if bits == 7 then QM5[index] else QM4[index]
  }

  lemma OutputLevelRange(i: nat)
    ensures i < 64 ==> Within(QM6[i], 24808)
    ensures i < 32 ==> Within(QM5[i], 24808)
    ensures i < 16 ==> Within(QM4[i], 24808)
  {
    if i < 32 {
      HalvesWithin(i);
      FiveWithin(i);
    } else if i < 64 {
      HalvesWithin(i - 32);
    }
  }

  lemma HalvesWithin(i: nat)
    requires i < 32
    ensures Within(QM6_NEGATIVE[i], 24808) && Within(QM6_POSITIVE[i], 24808)
  {
  }

  lemma FiveWithin(i: nat)
    requires i < 32
    ensures Within(QM5[i], 24808)
  {
  }

  // ---------------------------------------------------------------- accuracy

  /** The cells that share their transmitted bits with cell i at a rate are those between the
      thresholds Below and Above: one cell at 8 bits, two at 7 and up to four at 6. */
  function Below(bits: Rate, i: nat): (lo: nat)
    requires 1 <= i <= 29
    ensures lo < i
  {
    if bits == 8 then i - 1 else if bits == 7 then (i - 1) / 2 * 2 else if i <= 2 then 0 else (i - 3) / 4 * 4 + 2
  }

  function Above(bits: Rate, i: nat): (hi: nat)
    requires 1 <= i <= 29
    ensures i <= hi <= 29
  {
    var hi := if bits == 8 then i else if bits == 7 then Below(bits, i) + 2 else if i <= 2 then 2 else Below(bits, i) + 4;
    if hi > 29 then 29 else hi
  }

  /** A level, in eighths, lies between two thresholds. */
  predicate Between(level: int, lo: nat, hi: nat)
    requires lo <= hi <= 29
  {
    8 * Q6[lo] <= level <= 8 * Q6[hi]
  }

  lemma CellCodes(i: nat)
    requires 1 <= i <= 29
    ensures ILP[i] == 62 - i && ILN[i] == NegativeCode(i)
  {
  }

  /** Single entries of the tables. */
  function Qm6(i: nat): int
    requires i < 64
  {
    QM6[i]
  }

  function Qm5(i: nat): int
    requires i < 32
  {
    QM5[i]
  }

  function Qm4(i: nat): int
    requires i < 16
  {
    QM4[i]
  }

  lemma OneOfTen(i: nat, k: nat)
    requires k < i <= k + 10
    ensures i == k + 1 || i == k + 2 || i == k + 3 || i == k + 4 || i == k + 5 || i == k + 6 || i == k + 7 ||
            i == k + 8 || i == k + 9 || i == k + 10
  {
  }

  lemma PositiveEntries(i: nat)
    requires 1 <= i <= 29
    ensures Between(QM6_POSITIVE[30 - i], i - 1, i)
  {
    if i <= 10 {
      OneOfTen(i, 0);
    } else if i <= 20 {
      OneOfTen(i, 10);
    } else {
      OneOfTen(i, 20);
    }
  }

  lemma NegativeEntries(i: nat)
    requires 1 <= i <= 29
    ensures Between(-(if i <= 2 then QM6_POSITIVE[32 - i] else QM6_NEGATIVE[34 - i]), i - 1, i)
  {
    if i <= 10 {
      OneOfTen(i, 0);
    } else if i <= 20 {
      OneOfTen(i, 10);
    } else {
      OneOfTen(i, 20);
    }
  }

  /** Levels of single cells, for positive and for negative differences. */
  lemma Positive8(i: nat)
    requires 1 <= i <= 29
    ensures Between(Qm6(62 - i), i - 1, i)
  {
    hide Between;
    PositiveEntries(i);
    assert Qm6(62 - i) == QM6_POSITIVE[30 - i];
  }

  lemma Negative8(i: nat)
    requires 1 <= i <= 29
    ensures Between(-Qm6(NegativeCode(i)), i - 1, i)
  {
    hide Between;
    NegativeEntries(i);
    assert Qm6(NegativeCode(i)) == if i <= 2 then QM6_POSITIVE[32 - i] else QM6_NEGATIVE[34 - i];
  }

  lemma OneOfFifteen(j: nat)
    requires j <= 14
    ensures j == 0 || j == 1 || j == 2 || j == 3 || j == 4 || j == 5 || j == 6 || j == 7 || j == 8 || j == 9 ||
            j == 10 || j == 11 || j == 12 || j == 13 || j == 14
  {
  }

  /** Levels of the pair of cells 2j + 1 and 2j + 2. */
  lemma Positive7(j: nat)
    requires j <= 14
    ensures Between(Qm5(30 - j), 2 * j, if j == 14 then 29 else 2 * j + 2)
  {
    OneOfFifteen(j);
  }

  lemma Negative7(j: nat)
    requires j <= 14
    ensures Between(-Qm5(if j == 0 then 31 else 16 - j), 2 * j, if j == 14 then 29 else 2 * j + 2)
  {
    OneOfFifteen(j);
  }

  /** Levels of the cells 4g - 1 to 4g + 2; the cells 1 and 2 of both signs share the level zero. */
  lemma Fours6(g: nat)
    requires 1 <= g <= 7
    ensures Between(Qm4(15 - g), 4 * g - 2, if g == 7 then 29 else 4 * g + 2)
    ensures Between(-Qm4(8 - g), 4 * g - 2, if g == 7 then 29 else 4 * g + 2)
    ensures Between(Qm4(15), 0, 2) && Between(-Qm4(15), 0, 2)
  {
    assert g == 1 || g == 2 || g == 3 || g == 4 || g == 5 || g == 6 || g == 7;
  }

  /** The upper bits of a low-band code, as transmitted. */
  function Kept(bits: Rate, ilow: nat): (index: nat)
    requires ilow < 64
    ensures index < Pow2(bits - 2)
  {
    RatePowers(bits);
    ilow / Pow2(8 - bits)
  }

  lemma Levels8(i: nat)
    requires 1 <= i <= 29
    ensures Between(OutputLevel(8, Kept(8, 62 - i)), i - 1, i)
    ensures Between(-OutputLevel(8, Kept(8, NegativeCode(i))), i - 1, i)
  {
    hide Between, OutputLevel, Kept, Qm6, NegativeCode;
    KeptLevel(8, 62 - i);
    KeptLevel(8, NegativeCode(i));
    Positive8(i);
    Negative8(i);
  }

  lemma Levels7(i: nat)
    requires 1 <= i <= 29
    ensures Between(OutputLevel(7, Kept(7, 62 - i)), Below(7, i), Above(7, i))
    ensures Between(-OutputLevel(7, Kept(7, NegativeCode(i))), Below(7, i), Above(7, i))
  {
    hide Between, OutputLevel, Kept, Qm5, Below, Above, NegativeCode;
    KeptLevel(7, 62 - i);
    KeptLevel(7, NegativeCode(i));
    Positive7((i - 1) / 2);
    Negative7((i - 1) / 2);
    PairIndices(i);
  }

  lemma PairIndices(i: nat)
    requires 1 <= i <= 29
    ensures var j := (i - 1) / 2;
            (62 - i) / 2 == 30 - j && NegativeCode(i) / 2 == (if j == 0 then 31 else 16 - j) &&
            Below(7, i) == 2 * j && Above(7, i) == (if j == 14 then 29 else 2 * j + 2)
  {
  }

  lemma Levels6(i: nat)
    requires 1 <= i <= 29
    ensures Between(OutputLevel(6, Kept(6, 62 - i)), Below(6, i), Above(6, i))
    ensures Between(-OutputLevel(6, Kept(6, NegativeCode(i))), Below(6, i), Above(6, i))
  {
    hide Between, OutputLevel, Kept, Qm4, Below, Above, NegativeCode;
    KeptLevel(6, 62 - i);
    KeptLevel(6, NegativeCode(i));
    FourIndices(i);
    Fours6(if i <= 2 then 1 else (i + 1) / 4);
  }

  lemma FourIndices(i: nat)
    requires 1 <= i <= 29
    ensures var g := (i + 1) / 4;
            if i <= 2 then (62 - i) / 4 == NegativeCode(i) / 4 == 15 && Below(6, i) == 0 && Above(6, i) == 2
            else 1 <= g <= 7 && (62 - i) / 4 == 15 - g && NegativeCode(i) / 4 == 8 - g &&
                 Below(6, i) == 4 * g - 2 && Above(6, i) == (if g == 7 then 29 else 4 * g + 2)
  {
  }

  function NegativeCode(i: nat): (ilow: nat)
    requires 1 <= i <= 29
    ensures ilow < 64
  {
    if i <= 2 then 64 - i else 34 - i
  }

  /** The thresholds of the encoder and the levels of the decoder's three tables interleave: the
      level for a cell lies between the thresholds of its group. */
  lemma TablesInterleave(bits: Rate, i: nat)
    requires 1 <= i <= 29
    ensures Between(OutputLevel(bits, Kept(bits, 62 - i)), Below(bits, i), Above(bits, i))
    ensures Between(-OutputLevel(bits, Kept(bits, NegativeCode(i))), Below(bits, i), Above(bits, i))
  {
    hide Between, NegativeCode, Below, Above, OutputLevel, Kept;
    if bits == 8 {
      Levels8(i);
      CellOf8(i);
    } else if bits == 7 {
      Levels7(i);
    } else {
      Levels6(i);
    }
  }

  lemma KeptLevel(bits: Rate, ilow: nat)
    requires ilow < 64
    ensures bits == 8 ==> OutputLevel(bits, Kept(bits, ilow)) == Qm6(ilow)
    ensures bits == 7 ==> OutputLevel(bits, Kept(bits, ilow)) == Qm5(ilow / 2)
    ensures bits == 6 ==> OutputLevel(bits, Kept(bits, ilow)) == Qm4(ilow / 4)
  {
    RatePowers(bits);
    hide Pow2;
  }

  lemma CellOf8(i: nat)
    requires 1 <= i <= 29
    ensures Below(8, i) == i - 1 && Above(8, i) == i
  {
  }

  /** The distance of the outermost thresholds of a cell's group. */
  function Width(det: Det, bits: Rate, i: nat): (w: nat)
    requires 1 <= i <= 29
  {
    ThresholdsIncrease(det, Below(bits, i), Above(bits, i));
    Threshold(det, Above(bits, i)) - Threshold(det, Below(bits, i))
  }

  lemma ThresholdValue(det: Det, i: nat)
    requires i < 30
    ensures Threshold(det, i) == 8 * (Q6[i] * det) / 0x8000
  {
    var q := Q6[i];
    TimesIsProduct(q, det);
  }

  /** Scaling preserves the order of levels and thresholds, up to the rounding of negative values. */
  lemma LevelsScale(det: Det, q: word, lo: nat, hi: nat)
    requires lo <= hi <= 29
    ensures Between(q, lo, hi) ==> Threshold(det, lo) <= Scaled(det, q) <= Threshold(det, hi)
    ensures Between(0 - q, lo, hi) ==> -1 - Threshold(det, hi) <= Scaled(det, q) <= 0 - Threshold(det, lo)
  {
    hide Threshold, Scaled;
    ThresholdValue(det, lo);
    ThresholdValue(det, hi);
    ScaledValue(det, q);
    ScaleOrder(Q6[lo], Q6[hi], q, det);
    assert q * det == det * q;
  }

  lemma ScaleOrder(a: int, b: int, x: int, det: int)
    requires det >= 0
    ensures 8 * a <= x <= 8 * b ==> 8 * (a * det) / 0x8000 <= x * det / 0x8000 <= 8 * (b * det) / 0x8000
    ensures 8 * a <= -x <= 8 * b ==> -1 - 8 * (b * det) / 0x8000 <= x * det / 0x8000 <= -(8 * (a * det) / 0x8000)
  {
    var p, q, y := a * det, b * det, x * det;
    if 8 * a <= x <= 8 * b {
      MulMono(8 * a, x, det);
      MulMono(x, 8 * b, det);
      Associate(8, a, det);
      Associate(8, b, det);
      FloorOrder(8 * p, y);
      FloorOrder(y, 8 * q);
    }
    if 8 * a <= -x <= 8 * b {
      MulMono(8 * a, -x, det);
      MulMono(-x, 8 * b, det);
      Associate(8, a, det);
      Associate(8, b, det);
      Associate(-1, x, det);
      FloorNegated(8 * p, y);
      FloorNegated(8 * q, y);
    }
  }

  lemma Associate(k: int, a: int, b: int)
    ensures k * a * b == k * (a * b)
  {
  }

  lemma FloorOrder(x: int, y: int)
    requires x <= y
    ensures x / 0x8000 <= y / 0x8000
  {
  }

  lemma FloorNegated(x: int, y: int)
    ensures x <= -y ==> y / 0x8000 <= -(x / 0x8000)
    ensures -y <= x ==> -1 - x / 0x8000 <= y / 0x8000
  {
  }

  /** Outside the overload cell, the level that the decoder uses at any rate differs from the
      quantised difference by no more than the width of the group of cells. */
  lemma LowBandError(bits: Rate, el: word, det: Det)
    requires Cell(el, det) < 30
    ensures Within(Scaled(det, OutputLevel(bits, Kept(bits, LowCode(el, det)))) - el,
                   Width(det, bits, Cell(el, det)))
  {
    hide Between, Threshold, Scaled, OutputLevel, Kept, Below, Above, NegativeCode;
    var i := Cell(el, det);
    var lo, hi := Below(bits, i), Above(bits, i);
    CellContains(el, det);
    CellCodes(i);
    ThresholdsIncrease(det, lo, i - 1);
    ThresholdsIncrease(det, i, hi);
    TablesInterleave(bits, i);
    LevelsScale(det, OutputLevel(bits, Kept(bits, LowCode(el, det))), lo, hi);
  }

  /** The overload cell begins at the last threshold, and clipped differences fall into it. */
  lemma OverloadCell(el: word, det: Det)
    ensures Cell(el, det) == 30 <==> Magnitude(el) >= Threshold(det, 29)
    ensures Magnitude(el) == 32767 ==> Cell(el, det) == 30
  {
    hide Threshold;
    CellContains(el, det);
    var i := Cell(el, det);
    if i < 30 {
      ThresholdsIncrease(det, i, 29);
    }
  }

  function Limit(x: int): (r: int)
    ensures -16384 <= r <= 16383
  {
    if x > 16383 then 16383 else if x < -16384 then -16384 else x
  }

  /** A sample outside the overload cell is reproduced by the decoder of any rate to within the
      width of its group: the difference signal was not clipped, and limiting both sides can only
      reduce the error.  A sample in the range of the limiter is reproduced itself. */
  lemma SampleAccuracy(bits: Rate, xlow: int, s: word, det: Det)
    requires Cell(Sat(xlow - s), det) < 30
    ensures var el := Sat(xlow - s);
            Within(Limit(s + Scaled(det, OutputLevel(bits, Kept(bits, LowCode(el, det))))) - Limit(xlow),
                   Width(det, bits, Cell(el, det)))
    ensures -16384 <= xlow <= 16383 ==> Limit(xlow) == xlow
  {
    hide Scaled, OutputLevel, Kept, Cell, LowCode, Width;
    var el := Sat(xlow - s);
    OverloadCell(el, det);
    assert el == xlow - s;
    LowBandError(bits, el, det);
  }
}
