/** Fixed-point arithmetic of the GSM 06.10 codec (gsm/inc/private.h, gsm/src/add.c).

  `word` and `longword` are the C types of 16 and 32 bits.  They are subset types, so every
  value that a declaration below gives one of these types is proved to fit: where the C code
  would lose bits, the model has to say so with `ToWord`. */
module Words {
  const MIN_WORD := -0x8000
  const MAX_WORD := 0x7FFF
  const MIN_LONGWORD := -0x8000_0000
  const MAX_LONGWORD := 0x7FFF_FFFF

  type word = x: int | MIN_WORD <= x <= MAX_WORD
  type longword = x: int | MIN_LONGWORD <= x <= MAX_LONGWORD
  type byte = x: int | 0 <= x < 256

  // ---------------------------------------------------------------- powers of two and shifts

  function Pow2(n: nat): (p: nat)
    ensures p >= 1
  {
    if n == 0 then 1 else 2 * Pow2(n - 1)
  }

  lemma {:induction false} Pow2Add(m: nat, n: nat)
    ensures Pow2(m + n) == Pow2(m) * Pow2(n)
  {
    if m > 0 {
      Pow2Add(m - 1, n);
    }
  }

  lemma {:induction false} Pow2Increases(m: nat, n: nat)
    requires m <= n
    ensures Pow2(m) <= Pow2(n)
    decreases n
  {
    if m < n {
      Pow2Increases(m, n - 1);
    }
  }

  /** The values used by shifts of 16-bit and 32-bit quantities. */
  lemma Pow2Values()
    ensures Pow2(0) == 1 && Pow2(1) == 2 && Pow2(2) == 4 && Pow2(3) == 8 && Pow2(4) == 16
    ensures Pow2(5) == 32 && Pow2(6) == 64 && Pow2(7) == 128 && Pow2(8) == 256 && Pow2(9) == 512
    ensures Pow2(10) == 1024 && Pow2(11) == 2048 && Pow2(12) == 4096 && Pow2(13) == 8192
    ensures Pow2(14) == 16384 && Pow2(15) == 32768 && Pow2(16) == 65536
    ensures Pow2(24) == 0x100_0000 && Pow2(30) == 0x4000_0000 && Pow2(31) == 0x8000_0000
  {
    Pow2Add(8, 16);
    Pow2Add(14, 16);
    Pow2Add(15, 16);
  }

  /** Conversion of an int to a 16-bit signed word, by dropping the upper bits. */
  function ToWord(x: int): (w: word)
    ensures (w - x) % 0x1_0000 == 0
    ensures MIN_WORD <= x <= MAX_WORD ==> w == x
  {
    (x + 0x8000) % 0x1_0000 - 0x8000
  }

  /** The macro SASR of a compiler without arithmetic shifts is floor division as well. */
  lemma SasrIsFloor(x: int, n: nat)
    ensures (if x >= 0 then x / Pow2(n) else -(-(x + 1) / Pow2(n)) - 1) == x / Pow2(n)
  {
    if x < 0 {
      var p, y := Pow2(n), -(x + 1);
      assert y == p * (y / p) + y % p;
      assert x == p * (-(y / p) - 1) + (p - 1 - y % p);
      DivUnique(x, p, -(y / p) - 1, p - 1 - y % p);
    }
  }

  lemma DivUnique(x: int, p: int, q: int, r: int)
    requires p > 0 && x == p * q + r && 0 <= r < p
    ensures x / p == q && x % p == r
  {
    var q', r' := x / p, x % p;
    assert p * (q - q') == r' - r;
    if q > q' {
      MulAtLeast(p, q - q');
    } else if q < q' {
      MulAtLeast(p, q' - q);
    }
  }

  lemma MulAtLeast(p: int, k: int)
    requires p > 0 && k >= 1
    ensures p * k >= p
  {
  }

  /** `x` is at most `bound` in magnitude. */
  predicate Within(x: int, bound: int) {
    -bound <= x <= bound
  }

  function Distance(a: int, b: int): nat {
    if a < b then b - a else a - b
  }

  lemma MulMono(a: int, b: int, c: int)
    requires a <= b && c >= 0
    ensures a * c <= b * c && c * a <= c * b
  {
  }

  // ---------------------------------------------------------------- saturating operations

  function Sat(x: int): (r: word)
    ensures MIN_WORD <= x <= MAX_WORD ==> r == x
    ensures x > MAX_WORD ==> r == MAX_WORD
    ensures x < MIN_WORD ==> r == MIN_WORD
  {
    if x < MIN_WORD then MIN_WORD else if x > MAX_WORD then MAX_WORD else x
  }

  function SatLong(x: int): (r: longword)
  {
    if x < MIN_LONGWORD then MIN_LONGWORD else if x > MAX_LONGWORD then MAX_LONGWORD else x
  }

  /** gsm_add and GSM_ADD. */
  function Add(a: word, b: word): (r: word)
  {
    Sat(a + b)
  }

  /** gsm_sub and GSM_SUB. */
  function Sub(a: word, b: word): (r: word)
  {
    Sat(a - b)
  }

  /** The macro GSM_ADD decides saturation with one unsigned comparison. */
  function AddMacro(a: word, b: word): (r: word)
    ensures r == Add(a, b)
  {
    var ltmp: longword := a + b;
    if (ltmp - MIN_WORD) % 0x1_0000_0000 > MAX_WORD - MIN_WORD
    then if ltmp > 0 then MAX_WORD else MIN_WORD
    else ltmp
  }

  function SubMacro(a: word, b: word): (r: word)
    ensures r == Sub(a, b)
  {
    var ltmp: longword := a - b;
    if ltmp >= MAX_WORD then MAX_WORD else if ltmp <= MIN_WORD then MIN_WORD else ltmp
  }

  /** The macro GSM_L_ADD: same-sign operands are added as unsigned 32-bit numbers, the negative
      ones after complementing, and compared with the largest longword. */
  function LAddMacro(a: longword, b: longword): (r: longword)
    ensures r == SatLong(a + b)
  {
    if a < 0 then
      if b >= 0 then a + b
      else
        var utmp := (-(a + 1) + -(b + 1)) % 0x1_0000_0000;
        if utmp >= MAX_LONGWORD then MIN_LONGWORD else -utmp - 2
    else if b <= 0 then a + b
    else
      var utmp := (a + b) % 0x1_0000_0000;
      if utmp >= MAX_LONGWORD then MAX_LONGWORD else utmp
  }

  /** gsm_L_sub: operands of different signs are handled as unsigned 32-bit numbers. */
  function LSub(a: longword, b: longword): (r: longword)
    ensures r == SatLong(a - b)
  {
    if a >= 0 then
      if b >= 0 then a - b
      else
        var A := (a + -(b + 1)) % 0x1_0000_0000;
        if A >= MAX_LONGWORD then MAX_LONGWORD else A + 1
    else if b <= 0 then a - b
    else
      var A := (-(a + 1) + b) % 0x1_0000_0000;
      if A >= MAX_LONGWORD then MIN_LONGWORD else -A - 1
  }

  /** gsm_abs and GSM_ABS. */
  function Abs(a: word): (r: word)
    ensures r >= 0
    ensures a != MIN_WORD ==> r == a || r == -a
  {
    if a < 0 then if a == MIN_WORD then MAX_WORD else -a else a
  }

  /** Largest absolute value, in the sense of GSM_ABS. */
  function MaxAbs(s: seq<word>): (m: word)
    ensures m >= 0
    ensures forall x :: x in s ==> Abs(x) <= m
    ensures m > 0 ==> exists x :: x in s && Abs(x) == m
  {
    if s == [] then 0
    else
      var m := MaxAbs(s[..|s| - 1]);
      var a := Abs(s[|s| - 1]);
      assert s == s[..|s| - 1] + [s[|s| - 1]];
      if a > m then a else m
  }

  /** The search loops for the largest absolute value. */
  method FindMaxAbs(s: array<word>) returns (smax: word)
    ensures smax == MaxAbs(s[..])
  {
    smax := 0;
    for k := 0 to s.Length
      invariant smax == MaxAbs(s[..k])
    {
      assert s[..k + 1][..k] == s[..k];
      var temp := Abs(s[k]);
      if temp > smax {
        smax := temp;
      }
    }
    assert s[..s.Length] == s[..];
  }

  // ---------------------------------------------------------------- multiplication

  /** The product of two numbers, as repeated addition.  Proofs about the order of operations then
      see no nonlinear arithmetic; `TimesIsProduct` supplies it where the value matters. */
  function Times(a: int, b: int): (p: int)
    decreases if a < 0 then -a else a, b
  {
    if a == 0 then 0 else if a > 0 then Times(a - 1, b) + b else Times(a + 1, b) - b
  }

  lemma {:induction false} TimesIsProduct(a: int, b: int)
    ensures Times(a, b) == a * b
    decreases if a < 0 then -a else a
  {
    if a > 0 {
      TimesIsProduct(a - 1, b);
      assert a * b == (a - 1) * b + b;
    } else if a < 0 {
      TimesIsProduct(a + 1, b);
      assert a * b == (a + 1) * b - b;
    }
  }

  lemma ProductBound(a: int, b: int, m: int, n: int)
    requires 0 <= m && 0 <= n
    requires -m <= a <= m && -n <= b <= n
    ensures -(m * n) <= a * b <= m * n
  {
    var x, y := if a < 0 then -a else a, if b < 0 then -b else b;
    MulMono(x, m, y);
    MulMono(y, n, m);
    assert a * b == x * y || a * b == -(x * y);
  }

  /** The product of two words fits a longword with room for the rounding constant, and only
      MIN_WORD * MIN_WORD reaches 2^30. */
  lemma WordProduct(a: word, b: word)
    ensures -0x4000_0000 < a * b <= 0x4000_0000
    ensures !(a == MIN_WORD && b == MIN_WORD) ==> a * b <= 0x3FFF_8000
  {
    if a == MIN_WORD {
      if b > MIN_WORD {
        ProductBound(a, b, 0x8000, 0x7FFF);
      }
    } else {
      ProductBound(a, b, 0x7FFF, 0x8000);
    }
  }

  /** The macro GSM_MULT_R, whose callers must not pass MIN_WORD twice. */
  function MultR(a: word, b: word): (r: word)
    requires !(a == MIN_WORD && b == MIN_WORD)
  {
    WordProduct(a, b);
    TimesIsProduct(a, b);
    (Times(a, b) + 16384) / 0x8000
  }

  lemma MultRValue(a: word, b: word)
    requires !(a == MIN_WORD && b == MIN_WORD)
    ensures MultR(a, b) == (a * b + 16384) / 0x8000
  {
    TimesIsProduct(a, b);
  }

  /** gsm_mult_r, total: the product is masked to 16 bits and returned as a word. */
  function GsmMultR(a: word, b: word): (r: word)
    ensures !(a == MIN_WORD && b == MIN_WORD) ==> r == MultR(a, b)
  {
    hide Times, ToWord;
    if b == MIN_WORD && a == MIN_WORD then MAX_WORD
    else
      WordProduct(a, b);
      TimesIsProduct(a, b);
      var prod: longword := Times(a, b) + 16384;
      MaskedWord(prod / 0x8000);
      ToWord((prod / 0x8000) % 0x1_0000)
  }

  lemma MaskedWord(x: word)
    ensures ToWord(x % 0x1_0000) == x
  {
  }

  /** The macro GSM_MULT. */
  function Mult(a: word, b: word): (r: word)
    requires !(a == MIN_WORD && b == MIN_WORD)
  {
    WordProduct(a, b);
    TimesIsProduct(a, b);
    Times(a, b) / 0x8000
  }

  lemma MultValue(a: word, b: word)
    requires !(a == MIN_WORD && b == MIN_WORD)
    ensures Mult(a, b) == a * b / 0x8000
  {
    TimesIsProduct(a, b);
  }

  /** gsm_mult, total. */
  function GsmMult(a: word, b: word): (r: word)
    ensures !(a == MIN_WORD && b == MIN_WORD) ==> r == Mult(a, b)
  {
    if a == MIN_WORD && b == MIN_WORD then MAX_WORD
    else
      WordProduct(a, b);
      TimesIsProduct(a, b);
      Times(a, b) / 0x8000
  }

  /** Scaling by a factor below one never grows a word. */
  lemma MultRShrinks(a: word, b: word)
    requires b != MIN_WORD
    ensures Abs(MultR(a, b)) <= Abs(a) && MultR(a, b) != MIN_WORD
    ensures (a >= 0) == (b >= 0) ==> MultR(a, b) >= 0
    ensures (a > 0 && b <= 0) || (a < 0 && b >= 0) ==> MultR(a, b) <= 0
  {
    var w: int, y: int := a, b;
    var x := if w >= 0 then w else -w;
    MultRValue(a, b);
    assert a * b == x * y || a * b == -(x * y);
    MulMono(-0x7FFF, y, x);
    MulMono(y, 0x7FFF, x);
    if b >= 0 {
      MulMono(0, y, x);
    } else {
      MulMono(y, 0, x);
    }
  }

  // ---------------------------------------------------------------- variable shifts

  /** Arithmetic shift right by n: n halvings, rounding down. */
  function Shr(x: int, n: nat): (r: int)
    ensures x >= 0 ==> r >= 0
    decreases n, x
  {
    if n == 0 then x else Shr(x / 2, n - 1)
  }

  /** Shift left by n, in unbounded arithmetic. */
  function Shl(x: int, n: nat): (r: int)
    ensures x >= 0 ==> r >= 0
    decreases n, x
  {
    if n == 0 then x else Shl(x * 2, n - 1)
  }

  lemma {:induction false} ShrIsDivision(x: int, n: nat)
    ensures Shr(x, n) == x / Pow2(n)
    decreases n
  {
    if n > 0 {
      ShrIsDivision(x / 2, n - 1);
      HalfThenDivide(x, Pow2(n - 1));
    }
  }

  lemma HalfThenDivide(x: int, p: int)
    requires p > 0
    ensures x / 2 / p == x / (2 * p)
  {
    var h := x / 2;
    var q, r := h / p, h % p;
    assert h == p * q + r;
    assert x == (2 * p) * q + (2 * r + x % 2);
    DivUnique(x, 2 * p, q, 2 * r + x % 2);
  }

  lemma {:induction false} ShlIsProduct(x: int, n: nat)
    ensures Shl(x, n) == x * Pow2(n)
    decreases n
  {
    if n > 0 {
      ShlIsProduct(x * 2, n - 1);
      assert x * 2 * Pow2(n - 1) == x * (2 * Pow2(n - 1));
    }
  }

  /** gsm_asr: a negative distance shifts left. */
  function Asr(a: word, n: word): (r: word) {
    if n >= 16 then if a < 0 then -1 else 0
    else if n <= -16 then 0
    else if n < 0 then ToWord(Shl(a, -n))
    else ShiftRightFits(a, n); Shr(a, n)
  }

  /** gsm_asl: a negative distance shifts right. */
  function Asl(a: word, n: word): (r: word) {
    if n >= 16 then 0
    else if n <= -16 then if a < 0 then -1 else 0
    else if n < 0 then Asr(a, -n)
    else ToWord(Shl(a, n))
  }

  lemma {:induction false} ShiftRightFits(a: word, n: nat)
    ensures MIN_WORD <= Shr(a, n) <= MAX_WORD
    decreases n
  {
    if n > 0 {
      ShiftRightFits(a / 2, n - 1);
    }
  }

  /** Within a word's width it is floor division. */
  lemma AsrIsDivision(a: word, n: word)
    requires 0 <= n < 16
    ensures Asr(a, n) == a / Pow2(n)
  {
    ShrIsDivision(a, n);
  }

  // ---------------------------------------------------------------- normalisation

  /** The 256-entry table bitoff, written by its runs: the number of leading zeros of a byte. */
  function BitOff(x: byte): (b: nat)
    ensures b <= 8
    ensures x > 0 ==> b <= 7 && Pow2(7 - b) <= x < Pow2(8 - b)
    ensures x == 0 ==> b == 8
  {
    Pow2Values();
    if x == 0 then 8 else if x < 2 then 7 else if x < 4 then 6 else if x < 8 then 5
    else if x < 16 then 4 else if x < 32 then 3 else if x < 64 then 2 else if x < 128 then 1 else 0
  }

  /** `a` needs exactly `n` left shifts to bring its leading one to bit 30. */
  ghost predicate Normalises(a: nat, n: nat)
  {
    0x4000_0000 <= a * Pow2(n) <= MAX_LONGWORD
  }

  lemma Pow2Triple(i: nat, j: nat, k: nat)
    ensures Pow2(i) * Pow2(j) * Pow2(k) == Pow2(i + j + k)
  {
    Pow2Add(i, j);
    Pow2Add(i + j, k);
  }

  lemma Pow2Bits30()
    ensures Pow2(30) == 0x4000_0000 && Pow2(31) == 0x8000_0000
  {
    Pow2Values();
  }

  lemma NormScale(a: int, x: int, p: int, lo: int, hi: int, f: int)
    requires p > 0 && f > 0 && p * x <= a < p * (x + 1) && lo <= x < hi
    requires p * lo * f == 0x4000_0000 && p * hi * f == 0x8000_0000
    ensures 0x4000_0000 <= a * f < 0x8000_0000
  {
    MulMono(lo, x, p);
    MulMono(x + 1, hi, p);
    MulMono(p * lo, a, f);
    MulMono(a + 1, p * hi, f);
    assert (a + 1) * f == a * f + f;
  }

  lemma NormPositive(a: longword, x: nat, shift: nat, n: nat)
    requires a > 0 && shift <= 24 && n <= 7 && shift <= 23 + n
    requires x == a / Pow2(shift) && Pow2(7 - n) <= x < Pow2(8 - n)
    ensures Normalises(a, 23 + n - shift)
  {
    var p, f, lo, hi := NormFactors(shift, n);
    DivBounds(a, p, x);
    NormScale(a, x, p, lo, hi, f);
  }

  lemma NormFactors(shift: nat, n: nat) returns (p: int, f: int, lo: int, hi: int)
    requires n <= 7 && shift <= 23 + n
    ensures p == Pow2(shift) && f == Pow2(23 + n - shift) && lo == Pow2(7 - n) && hi == Pow2(8 - n)
    ensures p * lo * f == 0x4000_0000 && p * hi * f == 0x8000_0000
  {
    Pow2Triple(shift, 7 - n, 23 + n - shift);
    Pow2Triple(shift, 8 - n, 23 + n - shift);
    Pow2Bits30();
    p, f, lo, hi := Pow2(shift), Pow2(23 + n - shift), Pow2(7 - n), Pow2(8 - n);
  }

  lemma DivBounds(a: int, p: int, x: int)
    requires p > 0 && x == a / p
    ensures p * x <= a < p * (x + 1)
  {
    assert a == p * (a / p) + a % p;
  }

  /** The shifted value of a number below 2^count. */
  lemma ShrBelow(x: nat, n: nat, count: nat)
    requires x < Pow2(count) && n <= count
    ensures 0 <= Shr(x, n) < Pow2(count - n)
  {
    hide Pow2;
    ShrIsDivision(x, n);
    Pow2Add(n, count - n);
    var p, q := Pow2(n), Pow2(count - n);
    DivBounds(x, p, x / p);
    if x / p >= q {
      MulMono(q, x / p, p);
    }
  }

  /** A value whose high word survives the normalising factor p, without the high word. */
  lemma HighBits(x: int, p: int)
    requires x * 0x1_0000 * p <= MAX_LONGWORD
    ensures x * p < 0x8000
  {
    assert x * 0x1_0000 * p == 0x1_0000 * (x * p);
  }

  /** gsm_norm: the number of left shifts that normalise a non-zero longword. */
  function Norm(a: longword): (n: nat)
    requires a != 0
    ensures n <= 31
    ensures a > 0 ==> n <= 30 && Normalises(a, n)
    ensures a < 0 ==> MIN_LONGWORD <= a * Pow2(n) <= -0x4000_0000
  {
    if a < 0 then
      if a <= -0x4000_0000 then 0
      else if a == -1 then
        Pow2Values();
        NormBits(0)
      else
        NormNegative(a, NormBits(-a - 1));
        NormBits(-a - 1)
    else NormBits(a)
  }

  lemma NormNegative(a: longword, n: nat)
    requires -0x4000_0000 < a < -1 && n <= 30 && Normalises(-a - 1, n)
    ensures MIN_LONGWORD <= a * Pow2(n) <= -0x4000_0000
  {
    Pow2Add(n, 31 - n);
    Pow2Bits30();
    hide Pow2;
    NegativeScale(-a - 1, Pow2(n), Pow2(31 - n));
  }

  /** b * p is below 2^31, and both are multiples of p. */
  lemma NegativeScale(b: int, p: int, q: int)
    requires p > 0 && p * q == 0x8000_0000 && 0x4000_0000 <= b * p < 0x8000_0000
    ensures -0x8000_0000 <= (-b - 1) * p <= -0x4000_0000
  {
    assert (-b - 1) * p == -(b * p) - p;
    if b >= q {
      MulMono(q, b, p);
    } else {
      MulMono(b + 1, q, p);
    }
  }

  function NormBits(a: longword): (n: nat)
    requires a >= 0
    ensures a == 0 ==> n == 31
    ensures a > 0 ==> n <= 30 && Normalises(a, n)
  {
    Pow2Values();
    if a / 0x1_0000 != 0 then
      if a / 0x100_0000 != 0 then
        NormPositive(a, a / 0x100_0000, 24, BitOff(a / 0x100_0000));
        BitOff(a / 0x100_0000) - 1
      else
        NormPositive(a, a / 0x1_0000, 16, BitOff(a / 0x1_0000));
        7 + BitOff(a / 0x1_0000)
    else if a / 0x100 != 0 then
      NormPositive(a, a / 0x100, 8, BitOff(a / 0x100));
      15 + BitOff(a / 0x100)
    else if a == 0 then 31
    else
      NormPositive(a, a, 0, BitOff(a));
      23 + BitOff(a)
  }

  // ---------------------------------------------------------------- division

  /** gsm_div: fifteen steps of restoring division.  The source demands 0 <= num <= denum. */
  method Div(num: word, denum: word) returns (div: word)
    requires 0 <= num <= denum
    ensures num == 0 ==> div == 0
    ensures 0 < num < denum ==> div == num * 0x8000 / denum
    ensures 0 < num == denum ==> div == MAX_WORD
  {
    var lNum: longword := num;
    div := 0;
    if num == 0 {
      return 0;
    }
    ghost var p := 1;
    var k := 15;
    Pow2Values();
    while k > 0
      invariant 0 <= k <= 15 && p * Pow2(k) == 0x8000
      invariant 0 <= lNum <= denum && (lNum == denum <==> num == denum)
      invariant 0 <= div < p
      invariant lNum + div * denum == num * p
    {
      DivStep(lNum, div, num, denum, p);
      DivPower(p, k);
      k, p := k - 1, 2 * p;
      div := div * 2;
      lNum := lNum * 2;
      if lNum >= denum {
        lNum := lNum - denum;
        div := div + 1;
      }
    }
    DivResult(num, denum, div, lNum);
  }

  lemma DivPower(p: int, k: nat)
    requires k > 0 && p > 0 && p * Pow2(k) == 0x8000
    ensures (2 * p) * Pow2(k - 1) == 0x8000 && 2 * p <= 0x8000
  {
    assert (2 * p) * Pow2(k - 1) == p * (2 * Pow2(k - 1));
    MulMono(1, Pow2(k - 1), 2 * p);
  }

  lemma DivResult(num: int, denum: int, div: int, rest: int)
    requires 0 < num <= denum && 0 <= rest <= denum && (rest == denum <==> num == denum)
    requires rest + div * denum == num * 0x8000
    ensures num < denum ==> div == num * 0x8000 / denum
    ensures num == denum ==> div == MAX_WORD
  {
    assert div * denum == denum * div;
    if num < denum {
      DivUnique(num * 0x8000, denum, div, rest);
    } else {
      DivUnique(num * 0x7FFF, num, 0x7FFF, 0);
      DivUnique(num * 0x7FFF, num, div, 0);
    }
  }

  lemma DivStep(lNum: int, div: int, num: int, denum: int, p: int)
    requires lNum + div * denum == num * p
    ensures 2 * lNum + (div * 2) * denum == num * (2 * p)
    ensures 2 * lNum - denum + (div * 2 + 1) * denum == num * (2 * p)
  {
    assert (div * 2) * denum == 2 * (div * denum);
    assert (div * 2 + 1) * denum == 2 * (div * denum) + denum;
    assert num * (2 * p) == 2 * (num * p);
  }

  /** The value computed by Div: the quotient in units of 2^-15, limited to MAX_WORD. */
  function Quotient(num: word, denum: word): (q: word)
    requires 0 <= num <= denum
    ensures q >= 0
    ensures num > 0 ==> q == if num * 0x8000 / denum > MAX_WORD then MAX_WORD else num * 0x8000 / denum
    ensures num == 0 ==> q == 0
  {
    if num == 0 then 0
    else if num == denum then
      DivUnique(num * 0x8000, denum, 0x8000, 0);
      MAX_WORD
    else
      QuotientBound(num, denum);
      num * 0x8000 / denum
  }

  lemma QuotientBound(num: word, denum: word)
    requires 0 < num < denum
    ensures 0 <= num * 0x8000 / denum <= MAX_WORD
  {
    var q := num * 0x8000 / denum;
    assert denum * q <= num * 0x8000 < denum * 0x8000;
    if q >= 0x8000 {
      MulMono(0x8000, q, denum);
    }
    if q < 0 {
      MulMono(q, -1, denum);
    }
  }
}
