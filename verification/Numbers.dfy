/** Sums, differences, complements and shifts of words, as arithmetic on the numbers they stand for. */
module Numbers {
  import opened Alu
  import opened MulDivLaws
  import opened Ranges
  import opened Words

  // ----- sums, digit by digit -------------------------------------------------------

  /** The low parts of `a` and `b` under `mask` have a carry. */
  predicate Carries(a: bv32, b: bv32, mask: bv32) {
    (a & mask) + (b & mask) > mask
  }

  /** Two digits and a carry in have a carry out. */
  predicate CarriesOut(g: bv4, h: bv4, c: bool) {
    (g as bv8) + (h as bv8) + (if c then 1 else 0) >= 16
  }

  /** The sum does not fit: the top digits have a carry out. */
  predicate Wraps(a: bv32, b: bv32) {
    CarriesOut(HexDigit(a, 7), HexDigit(b, 7), Carries(a, b, 0xFFF_FFFF))
  }

  function Plus(a: bv32, b: bv32): bv32 {
    a + b
  }

  /** A column of a sum: two digits and the carry in make a digit and the carry out. */
  predicate Column(g: bv4, h: bv4, c: bool, d: bv4, out: bool) {
    (g as bv8) + (h as bv8) + (if c then 1 else 0) == (d as bv8) + (if out then 16 else 0)
  }

  function Unit(c: bool): nat {
    if c then 1 else 0
  }

  lemma ColumnIs(g: bv4, h: bv4, c: bool, d: bv4, out: bool)
    requires Column(g, h, c, d, out)
    ensures NibbleVal(g) + NibbleVal(h) + Unit(c) == NibbleVal(d) + 16 * Unit(out)
  {
  }

  lemma Column0(a: bv32, b: bv32)
    ensures Column(HexDigit(a, 0), HexDigit(b, 0), false, HexDigit(Plus(a, b), 0), Carries(a, b, 0xF))
  {
  }

  lemma Column1(a: bv32, b: bv32)
    ensures Column(HexDigit(a, 1), HexDigit(b, 1), Carries(a, b, 0xF), HexDigit(Plus(a, b), 1), Carries(a, b, 0xFF))
  {
  }

  lemma Column2(a: bv32, b: bv32)
    ensures Column(HexDigit(a, 2), HexDigit(b, 2), Carries(a, b, 0xFF), HexDigit(Plus(a, b), 2), Carries(a, b, 0xFFF))
  {
  }

  lemma Column3(a: bv32, b: bv32)
    ensures Column(HexDigit(a, 3), HexDigit(b, 3), Carries(a, b, 0xFFF), HexDigit(Plus(a, b), 3), Carries(a, b, 0xFFFF))
  {
  }

  lemma Column4(a: bv32, b: bv32)
    ensures Column(HexDigit(a, 4), HexDigit(b, 4), Carries(a, b, 0xFFFF), HexDigit(Plus(a, b), 4), Carries(a, b, 0xF_FFFF))
  {
  }

  lemma Column5(a: bv32, b: bv32)
    ensures Column(HexDigit(a, 5), HexDigit(b, 5), Carries(a, b, 0xF_FFFF), HexDigit(Plus(a, b), 5), Carries(a, b, 0xFF_FFFF))
  {
  }

  lemma TopDigitOfSum(a: bv32, b: bv32)
    ensures HexDigit(Plus(a, b), 7) == HexDigit(a, 7) + HexDigit(b, 7) + (if Carries(a, b, 0xFFF_FFFF) then 1 else 0)
  {
  }

  lemma TopColumn(g: bv4, h: bv4, c: bool)
    ensures Column(g, h, c, g + h + (if c then 1 else 0), CarriesOut(g, h, c))
  {
  }

  lemma Digit6OfSum(a: bv32, b: bv32)
    ensures HexDigit(Plus(a, b), 6) == HexDigit(a, 6) + HexDigit(b, 6) + (if Carries(a, b, 0xFF_FFFF) then 1 else 0)
  {
  }

  lemma CarryOutOf6(a: bv32, b: bv32)
    ensures Carries(a, b, 0xFFF_FFFF) <==> CarriesOut(HexDigit(a, 6), HexDigit(b, 6), Carries(a, b, 0xFF_FFFF))
  {
  }

  lemma Column6(a: bv32, b: bv32)
    ensures Column(HexDigit(a, 6), HexDigit(b, 6), Carries(a, b, 0xFF_FFFF), HexDigit(Plus(a, b), 6), Carries(a, b,
        0xFFF_FFFF))
  {
    hide Column, Carries, HexDigit, Plus, CarriesOut;
    Digit6OfSum(a, b);
    CarryOutOf6(a, b);
    TopColumn(HexDigit(a, 6), HexDigit(b, 6), Carries(a, b, 0xFF_FFFF));
  }

  lemma Column7(a: bv32, b: bv32)
    ensures Column(HexDigit(a, 7), HexDigit(b, 7), Carries(a, b, 0xFFF_FFFF), HexDigit(Plus(a, b), 7), Wraps(a, b))
  {
    hide Column, Carries, HexDigit, Plus, CarriesOut;
    TopDigitOfSum(a, b);
    TopColumn(HexDigit(a, 7), HexDigit(b, 7), Carries(a, b, 0xFFF_FFFF));
  }

  lemma Digit0(a: bv32, b: bv32)
    ensures N(a, 0) + N(b, 0) == N(Plus(a, b), 0) + 16 * Unit(Carries(a, b, 0xF))
  {
    hide Column, Carries, Wraps, Plus, HexDigit, NibbleVal;
    Column0(a, b);
    ColumnIs(HexDigit(a, 0), HexDigit(b, 0), false, HexDigit(Plus(a, b), 0), Carries(a, b, 0xF));
  }

  lemma Digit1(a: bv32, b: bv32)
    ensures N(a, 1) + N(b, 1) + Unit(Carries(a, b, 0xF)) == N(Plus(a, b), 1) + 16 * Unit(Carries(a, b, 0xFF))
  {
    hide Column, Carries, Wraps, Plus, HexDigit, NibbleVal;
    Column1(a, b);
    ColumnIs(HexDigit(a, 1), HexDigit(b, 1), Carries(a, b, 0xF), HexDigit(Plus(a, b), 1), Carries(a, b, 0xFF));
  }

  lemma Digit2(a: bv32, b: bv32)
    ensures N(a, 2) + N(b, 2) + Unit(Carries(a, b, 0xFF)) == N(Plus(a, b), 2) + 16 * Unit(Carries(a, b, 0xFFF))
  {
    hide Column, Carries, Wraps, Plus, HexDigit, NibbleVal;
    Column2(a, b);
    ColumnIs(HexDigit(a, 2), HexDigit(b, 2), Carries(a, b, 0xFF), HexDigit(Plus(a, b), 2), Carries(a, b, 0xFFF));
  }

  lemma Digit3(a: bv32, b: bv32)
    ensures N(a, 3) + N(b, 3) + Unit(Carries(a, b, 0xFFF)) == N(Plus(a, b), 3) + 16 * Unit(Carries(a, b, 0xFFFF))
  {
    hide Column, Carries, Wraps, Plus, HexDigit, NibbleVal;
    Column3(a, b);
    ColumnIs(HexDigit(a, 3), HexDigit(b, 3), Carries(a, b, 0xFFF), HexDigit(Plus(a, b), 3), Carries(a, b, 0xFFFF));
  }

  lemma Digit4(a: bv32, b: bv32)
    ensures N(a, 4) + N(b, 4) + Unit(Carries(a, b, 0xFFFF)) == N(Plus(a, b), 4) + 16 * Unit(Carries(a, b, 0xF_FFFF))
  {
    hide Column, Carries, Wraps, Plus, HexDigit, NibbleVal;
    Column4(a, b);
    ColumnIs(HexDigit(a, 4), HexDigit(b, 4), Carries(a, b, 0xFFFF), HexDigit(Plus(a, b), 4), Carries(a, b, 0xF_FFFF));
  }

  lemma Digit5(a: bv32, b: bv32)
    ensures N(a, 5) + N(b, 5) + Unit(Carries(a, b, 0xF_FFFF)) == N(Plus(a, b), 5) + 16 * Unit(Carries(a, b, 0xFF_FFFF))
  {
    hide Column, Carries, Wraps, Plus, HexDigit, NibbleVal;
    Column5(a, b);
    ColumnIs(HexDigit(a, 5), HexDigit(b, 5), Carries(a, b, 0xF_FFFF), HexDigit(Plus(a, b), 5), Carries(a, b, 0xFF_FFFF));
  }

  lemma Digit6(a: bv32, b: bv32)
    ensures N(a, 6) + N(b, 6) + Unit(Carries(a, b, 0xFF_FFFF)) == N(Plus(a, b), 6) + 16 * Unit(Carries(a, b, 0xFFF_FFFF))
  {
    hide Column, Carries, Wraps, Plus, HexDigit, NibbleVal;
    Column6(a, b);
    ColumnIs(HexDigit(a, 6), HexDigit(b, 6), Carries(a, b, 0xFF_FFFF), HexDigit(Plus(a, b), 6), Carries(a, b, 0xFFF_FFFF));
  }

  lemma Digit7(a: bv32, b: bv32)
    ensures N(a, 7) + N(b, 7) + Unit(Carries(a, b, 0xFFF_FFFF)) == N(Plus(a, b), 7) + 16 * Unit(Wraps(a, b))
  {
    hide Column, Carries, Wraps, Plus, HexDigit, NibbleVal;
    Column7(a, b);
    ColumnIs(HexDigit(a, 7), HexDigit(b, 7), Carries(a, b, 0xFFF_FFFF), HexDigit(Plus(a, b), 7), Wraps(a, b));
  }

  lemma SumByColumns(a: bv32, b: bv32)
    ensures ToNat(a) + ToNat(b) == ToNat(Plus(a, b)) + TWO_32 * Unit(Wraps(a, b))
  {
    hide N, ToNat, Carries, Wraps, Plus, Unit;
    Digit0(a, b);
    Digit1(a, b);
    Digit2(a, b);
    Digit3(a, b);
    Digit4(a, b);
    Digit5(a, b);
    Digit6(a, b);
    Digit7(a, b);
    ToNatIs(a);
    ToNatIs(b);
    ToNatIs(Plus(a, b));
  }

  lemma PlusIs(a: bv32, b: bv32)
    ensures ToNat(Plus(a, b)) == (ToNat(a) + ToNat(b)) % TWO_32
  {
    hide ToNat, Wraps, Plus;
    SumByColumns(a, b);
    ToNatBound(Plus(a, b));
    if Wraps(a, b) {
      ModAdd(ToNat(Plus(a, b)), 1);
    }
  }

  /** The sum of words is the sum of their numbers, modulo 2^32. */
  lemma SumIs(a: bv32, b: bv32)
    ensures ToNat(a + b) == (ToNat(a) + ToNat(b)) % TWO_32
  {
    assert a + b == Plus(a, b);
    hide *;
    PlusIs(a, b);
  }

  lemma SumBack(a: bv32, b: bv32)
    ensures Plus(a - b, b) == a
  {
  }

  lemma PlusBack(d: bv32, b: bv32, a: bv32)
    requires Plus(d, b) == a
    ensures ToNat(d) == (ToNat(a) - ToNat(b)) % TWO_32
  {
    hide *;
    PlusIs(d, b);
    ToNatBound(a);
    ToNatBound(b);
    ToNatBound(d);
    BackMod(ToNat(d), ToNat(b), ToNat(a));
  }

  lemma BackMod(d: nat, b: nat, a: nat)
    requires d < TWO_32 && b < TWO_32 && a < TWO_32 && a == (d + b) % TWO_32
    ensures d == (a - b) % TWO_32
  {
    if d + b >= TWO_32 {
      ModAdd(a - b, 1);
    }
  }

  /** The difference of words is the difference of their numbers, modulo 2^32. */
  lemma DifferenceIs(a: bv32, b: bv32)
    ensures ToNat(a - b) == (ToNat(a) - ToNat(b)) % TWO_32
  {
    hide *;
    SumBack(a, b);
    PlusBack(a - b, b, a);
  }

  /** Equal numbers, equal words. */
  lemma NumberDetermines(a: bv32, b: bv32)
    ensures a == b <==> ToNat(a) == ToNat(b)
  {
    hide ToNat, FromNat;
    WordRoundTrip(a);
    WordRoundTrip(b);
  }

  // ----- shifts ----------------------------------------------------------------------

  function Power2(k: nat): (p: nat)
    ensures p > 0
  {
    if k == 0 then 1 else 2 * Power2(k - 1)
  }

  lemma Twice(x: bv32)
    ensures x << 1 == Plus(x, x)
  {
  }

  function Half(x: bv32): bv32 {
    x >> 1
  }

  function LowBit(x: bv32): bv32 {
    x & 1
  }

  lemma HalfOf(x: bv32)
    ensures Plus(Plus(Half(x), Half(x)), LowBit(x)) == x && !Sign(Half(x)) && (LowBit(x) == 0 || LowBit(x) == 1)
  {
  }

  lemma OneIsOne()
    ensures ToNat(1) == 1
  {
    assert ByteVal(1) == 1 && ByteVal(0) == 0;
    hide ByteVal;
  }

  lemma LowBitIs(x: bv32)
    requires LowBit(x) == 0 || LowBit(x) == 1
    ensures 0 <= ToNat(LowBit(x)) <= 1
  {
    ZeroIsZero();
    OneIsOne();
    hide ToNat;
  }

  lemma HalfIs(x: bv32)
    ensures ToNat(Half(x)) == ToNat(x) / 2
  {
    hide *;
    HalfOf(x);
    LowBitIs(x);
    var h := Half(x);
    SignIs(h);
    PlusIs(h, h);
    PlusIs(Plus(h, h), LowBit(x));
    HalfArithmetic(ToNat(h), ToNat(LowBit(x)), ToNat(Plus(h, h)), ToNat(x));
  }

  lemma HalfArithmetic(h: nat, l: nat, d: nat, x: nat)
    requires h < TWO_31 && l <= 1 && d == (h + h) % TWO_32 && x == (d + l) % TWO_32
    ensures h == x / 2
  {
  }

  lemma ShiftedOnce(x: bv32)
    ensures ToNat(x >> 1) == ToNat(x) / 2
  {
    assert x >> 1 == Half(x);
    hide *;
    HalfIs(x);
  }

  lemma DoubledOnce(x: bv32)
    ensures ToNat(x << 1) == 2 * ToNat(x) % TWO_32
  {
    Twice(x);
    hide *;
    PlusIs(x, x);
  }

  lemma LeftStep(a: bv32, n: bv5)
    requires n != 0
    ensures ShiftLeft(a, n) == ShiftLeft(a, n - 1) << 1 && ShiftRight(a, n) == ShiftRight(a, n - 1) >> 1
  {
  }

  lemma NoShift(a: bv32)
    ensures ShiftLeft(a, 0) == a && ShiftRight(a, 0) == a
  {
  }

  lemma AmountStep(n: bv5)
    requires n != 0
    ensures n as nat == (n - 1) as nat + 1
  {
  }

  lemma DoubleMod(x: nat, p: nat)
    ensures 2 * (x * p % TWO_32) % TWO_32 == x * (2 * p) % TWO_32
  {
    var q, r := x * p / TWO_32, x * p % TWO_32;
    assert x * (2 * p) == 2 * (x * p);
    assert x * (2 * p) == 2 * r + (2 * q) * TWO_32;
    ModAdd(2 * r, 2 * q);
  }

  /** A left shift multiplies by a power of two, modulo 2^32. */
  lemma {:induction false} LeftIs(a: bv32, n: bv5)
    ensures ToNat(ShiftLeft(a, n)) == ToNat(a) * Power2(n as nat) % TWO_32
    decreases n as nat
  {
    hide ToNat, ShiftLeft, ShiftRight;
    if n == 0 {
      NoShift(a);
      ToNatBound(a);
    } else {
      AmountStep(n);
      LeftStep(a, n);
      LeftIs(a, n - 1);
      DoubledOnce(ShiftLeft(a, n - 1));
      DoubleMod(ToNat(a), Power2((n - 1) as nat));
    }
  }

  lemma HalveQuotient(x: nat, p: nat)
    requires p > 0
    ensures x / p / 2 == x / (2 * p)
  {
    var q, r := x / p, x % p;
    assert x == p * q + r;
    var h, l := q / 2, q % 2;
    assert q == 2 * h + l;
    assert p * q == (2 * p) * h + p * l by {
      assert p * (2 * h + l) == p * (2 * h) + p * l;
    }
    EuclidIs(x, 2 * p, h, p * l + r);
  }

  lemma Apart(p: int, q: int, d: nat)
    ensures p < q ==> d * (q - p) >= d
  {
    if p < q {
      MulMonotone(1, q - p, d);
    }
  }

  lemma EuclidIs(x: int, d: nat, q: int, r: int)
    requires d > 0 && x == d * q + r && 0 <= r < d
    ensures x / d == q
  {
    var p, t := x / d, x % d;
    assert x == d * p + t && 0 <= t < d;
    assert d * (p - q) == r - t && d * (q - p) == t - r;
    Apart(p, q, d);
    Apart(q, p, d);
  }

  /** A logical right shift divides by a power of two. */
  lemma {:induction false} RightIs(a: bv32, n: bv5)
    ensures ToNat(ShiftRight(a, n)) == ToNat(a) / Power2(n as nat)
    decreases n as nat
  {
    hide ToNat, ShiftLeft, ShiftRight;
    if n == 0 {
      NoShift(a);
    } else {
      AmountStep(n);
      LeftStep(a, n);
      RightIs(a, n - 1);
      ShiftedOnce(ShiftRight(a, n - 1));
      HalveQuotient(ToNat(a), Power2((n - 1) as nat));
    }
  }

  lemma Complement(x: bv32)
    ensures !x == 0xFFFF_FFFF - x && (Sign(!x) <==> !Sign(x))
  {
  }

  /** The complement of a word counts down from minus one. */
  lemma ComplementIs(x: bv32)
    ensures ToNat(!x) == TWO_32 - 1 - ToNat(x) && ToInt(!x) == -1 - ToInt(x)
  {
    hide ToNat, ToInt, Sign;
    Complement(x);
    OnesAreMinusOne();
    DifferenceIs(0xFFFF_FFFF, x);
    ToNatBound(x);
    ToIntIs(x);
    ToIntIs(!x);
  }

  lemma NegativeQuotient(m: nat, p: nat)
    requires p > 0
    ensures (-1 - m) / p == -1 - m / p
  {
    var q: int, r: int, d: int := m / p, m % p, p;
    DivideNat(m, p);
    assert -1 - m == d * (-1 - q) + (d - 1 - r) by {
      assert d * (-1 - q) == -d - d * q;
    }
    EuclidIs(-1 - m, p, -1 - q, d - 1 - r);
  }

  lemma ClearSign(x: bv32, n: bv5)
    requires !Sign(x)
    ensures !Sign(ShiftRight(x, n))
  {
  }

  /** Shifting the complement of a negative word and complementing again divides, rounding down. */
  lemma SignedRightIs(a: bv32, n: bv5)
    ensures !Sign(a) ==> ToInt(ShiftRight(a, n)) == ToInt(a) / Power2(n as nat)
    ensures Sign(a) ==> ToInt(!ShiftRight(!a, n)) == ToInt(a) / Power2(n as nat)
  {
    hide ToNat, ToInt, Sign, ShiftRight;
    ToIntIs(a);
    if !Sign(a) {
      ClearSign(a, n);
      ToIntIs(ShiftRight(a, n));
      RightIs(a, n);
    } else {
      Complement(a);
      ComplementIs(a);
      ToIntIs(!a);
      ClearSign(!a, n);
      ToIntIs(ShiftRight(!a, n));
      RightIs(!a, n);
      ComplementIs(ShiftRight(!a, n));
      NegativeQuotient(ToNat(!a), Power2(n as nat));
    }
  }
}
