/** Laws of the M extension, for all operands. */
module MulDivLaws {
  import opened Alu
  import opened Ranges
  import opened Words

  const MIN_INT: int := -0x8000_0000

  // ----- words and numbers ---------------------------------------------------------

  lemma TopDigit(w: bv32)
    ensures Sign(w) <==> N(w, 7) >= 8
  {
    TopBit(w);
    NibbleFacts(HexDigit(w, 7));
    hide HexDigit, NibbleVal, Sign;
  }

  lemma TopBit(w: bv32)
    ensures HexDigit(w, 7) < 8 ==> !Sign(w)
    ensures HexDigit(w, 7) >= 8 ==> Sign(w)
  {
  }

  /** The sign bit is set from 2^31 up. */
  lemma SignIs(w: bv32)
    ensures Sign(w) <==> ToNat(w) >= TWO_31
    ensures ToNat(w) < TWO_32 && MIN_INT <= ToInt(w) < TWO_31
  {
    hide N, ToNat, ToInt, Sign;
    TopDigit(w);
    ToNatIs(w);
    DigitBounds(w);
    ToIntIs(w);
    ToNatBound(w);
  }

  lemma ModAdd(x: int, k: int)
    ensures (x + k * TWO_32) % TWO_32 == x % TWO_32
  {
  }

  lemma DivAdd(x: int, k: int)
    ensures (x + k * TWO_32) / TWO_32 == x / TWO_32 + k
  {
  }

  lemma WrapNat(n: int)
    ensures ToNat(Wrap(n)) == n % TWO_32
  {
    hide ToNat, FromNat;
    NatRoundTrip(n % TWO_32);
  }

  lemma WrapInt(n: int)
    requires MIN_INT <= n < TWO_31
    ensures ToInt(Wrap(n)) == n
  {
    hide ToNat, FromNat, Wrap, ToInt, Sign;
    WrapNat(n);
    SignIs(Wrap(n));
    ToIntIs(Wrap(n));
  }

  /** The two readings of a word differ by a multiple of 2^32. */
  lemma ToIntMod(w: bv32)
    ensures ToInt(w) % TWO_32 == ToNat(w)
  {
    hide ToNat, ToInt, Sign;
    ToIntIs(w);
    ToNatBound(w);
  }

  // ----- products ------------------------------------------------------------------

  lemma HighOfProduct(p: int)
    ensures p % TWO_64 / TWO_32 == p / TWO_32 % TWO_32
  {
    var q, r := p / TWO_64, p % TWO_64;
    assert p == r + (q * TWO_32) * TWO_32;
    DivAdd(r, q * TWO_32);
    ModAdd(r / TWO_32, q);
    assert 0 <= r / TWO_32 < TWO_32;
  }

  lemma HighWordIs(p: int)
    ensures ToNat(HighWord(p)) == p / TWO_32 % TWO_32
  {
    hide ToNat, FromNat;
    NatRoundTrip(p % TWO_64 / TWO_32);
    HighOfProduct(p);
  }

  lemma ProductAtMost(x: nat, y: nat, n: nat)
    requires x <= n && y <= n
    ensures 0 <= x * y <= n * n
  {
    assert x * y <= x * n;
    assert x * n <= n * n;
  }

  lemma ProductBound(x: nat, y: nat)
    requires x < TWO_32 && y < TWO_32
    ensures 0 <= x * y && x * y / TWO_32 < TWO_32
  {
    ProductAtMost(x, y, TWO_32 - 1);
  }

  /** The unsigned product of two words. */
  function UnsignedOf(a: bv32, b: bv32): int {
    ToNat(a) * ToNat(b)
  }

  lemma UnsignedBound(a: bv32, b: bv32)
    ensures 0 <= UnsignedOf(a, b) && UnsignedOf(a, b) / TWO_32 < TWO_32
  {
    hide ToNat;
    ToNatBound(a);
    ToNatBound(b);
    ProductBound(ToNat(a), ToNat(b));
  }

  lemma MulhuIs(a: bv32, b: bv32)
    ensures ToNat(Mulhu(a, b)) == UnsignedOf(a, b) / TWO_32 % TWO_32
  {
    hide ToNat, HighWord;
    HighWordIs(ToNat(a) * ToNat(b));
  }

  lemma MulIs(a: bv32, b: bv32)
    ensures ToNat(Mul(a, b)) == UnsignedOf(a, b) % TWO_32
  {
    hide ToNat, Wrap;
    WrapNat(ToNat(a) * ToNat(b));
  }

  lemma Halves(p: int)
    requires 0 <= p && p / TWO_32 < TWO_32
    ensures (p / TWO_32 % TWO_32) * TWO_32 + p % TWO_32 == p
  {
  }

  /** MULHU and MUL are the halves of the unsigned product. */
  lemma UnsignedProduct(a: bv32, b: bv32)
    ensures ToNat(Mulhu(a, b)) * TWO_32 + ToNat(Mul(a, b)) == ToNat(a) * ToNat(b)
  {
    assert UnsignedOf(a, b) == ToNat(a) * ToNat(b);
    hide *;
    UnsignedBound(a, b);
    MulhuIs(a, b);
    MulIs(a, b);
    Halves(UnsignedOf(a, b));
  }

  /** What a sign bit contributes. */
  function Correction(sign: bv32, other: bv32): nat {
    if Sign(sign) then ToNat(other) else 0
  }

  function SignWeight(w: bv32): nat {
    if Sign(w) then 1 else 0
  }

  lemma ToIntWeight(w: bv32)
    ensures ToInt(w) == ToNat(w) - SignWeight(w) * TWO_32
  {
    hide ToNat, ToInt, Sign;
    ToIntIs(w);
  }

  lemma ExpandSigned(x: int, y: int, s: int, t: int)
    ensures (x - s * TWO_32) * (y - t * TWO_32) == x * y + (s * t * TWO_32 - s * y - t * x) * TWO_32
  {
  }

  lemma ExpandMixed(x: int, y: int, s: int)
    ensures (x - s * TWO_32) * y == x * y + (-(s * y)) * TWO_32
  {
  }

  lemma ModMod(x: int, y: int)
    ensures (x % TWO_32 + y) % TWO_32 == (x + y) % TWO_32
  {
    ModAdd(x % TWO_32 + y, x / TWO_32);
  }

  function SignedOf(a: bv32, b: bv32): int {
    ToInt(a) * ToInt(b)
  }

  function MixedOf(a: bv32, b: bv32): int {
    ToInt(a) * ToNat(b)
  }

  lemma MulhIs(a: bv32, b: bv32)
    ensures ToNat(Mulh(a, b)) == SignedOf(a, b) / TWO_32 % TWO_32
    ensures ToNat(Mulhsu(a, b)) == MixedOf(a, b) / TWO_32 % TWO_32
  {
    hide ToNat, ToInt, HighWord;
    HighWordIs(ToInt(a) * ToInt(b));
    HighWordIs(ToInt(a) * ToNat(b));
  }

  /** The bits of weight 2^32 that the signs contribute, and those of weight 2^64. */
  lemma SignedParts(a: bv32, b: bv32)
    ensures SignedOf(a, b)
         == UnsignedOf(a, b) + ((if Sign(a) && Sign(b) then TWO_32 else 0) - Correction(a, b) - Correction(b, a)) * TWO_32
  {
    hide ToNat, ToInt, Sign;
    ToIntIs(a);
    ToIntIs(b);
    ExpandSigned(ToNat(a), ToNat(b), if Sign(a) then 1 else 0, if Sign(b) then 1 else 0);
  }

  lemma MixedParts(a: bv32, b: bv32)
    ensures MixedOf(a, b) == UnsignedOf(a, b) + (0 - Correction(a, b)) * TWO_32
  {
    hide ToNat, ToInt, Sign;
    ToIntIs(a);
    ExpandMixed(ToNat(a), ToNat(b), if Sign(a) then 1 else 0);
  }

  lemma HighFromParts(p: int, u: int, k: int, c: int)
    requires p == u + (k * TWO_32 - c) * TWO_32
    ensures p / TWO_32 % TWO_32 == (u / TWO_32 % TWO_32 - c) % TWO_32
  {
    DivAdd(u, k * TWO_32 - c);
    ModMod(u / TWO_32, -c);
    ModAdd(u / TWO_32 - c, k);
  }

  /** MULH is MULHU less each operand once for the other's sign, modulo 2^32. */
  lemma SignedHighProduct(a: bv32, b: bv32)
    ensures ToNat(Mulh(a, b)) == (ToNat(Mulhu(a, b)) - Correction(a, b) - Correction(b, a)) % TWO_32
  {
    hide *;
    MulhIs(a, b);
    MulhuIs(a, b);
    SignedParts(a, b);
    HighFromParts(SignedOf(a, b), UnsignedOf(a, b), if Sign(a) && Sign(b) then 1 else 0, Correction(a, b) + Correction(b, a));
  }

  /** MULHSU is MULHU less the second operand for the first one's sign, modulo 2^32. */
  lemma MixedHighProduct(a: bv32, b: bv32)
    ensures ToNat(Mulhsu(a, b)) == (ToNat(Mulhu(a, b)) - Correction(a, b)) % TWO_32
  {
    hide *;
    MulhIs(a, b);
    MulhuIs(a, b);
    MixedParts(a, b);
    HighFromParts(MixedOf(a, b), UnsignedOf(a, b), 0, Correction(a, b));
  }

  /** MULH and MUL are the halves of the signed product. */
  lemma SignedProduct(a: bv32, b: bv32)
    ensures ToInt(Mulh(a, b)) * TWO_32 + ToNat(Mul(a, b)) == ToInt(a) * ToInt(b)
  {
    hide ToNat, ToInt, HighWord, Sign, Wrap;
    var p := ToInt(a) * ToInt(b);
    HighWordIs(p);
    SignIs(a);
    SignIs(b);
    SignedBound(ToInt(a), ToInt(b));
    HighSigned(p / TWO_32, Mulh(a, b));
    WrapNat(ToNat(a) * ToNat(b));
    SameLow(a, b);
  }

  lemma SignedBound(x: int, y: int)
    requires MIN_INT <= x < TWO_31 && MIN_INT <= y < TWO_31
    ensures MIN_INT <= x * y / TWO_32 < TWO_31
  {
    assert MIN_INT * TWO_31 <= x * y <= TWO_31 * TWO_31 by {
      AbsProduct(x, y);
    }
  }

  lemma AbsProduct(x: int, y: int)
    requires MIN_INT <= x <= TWO_31 && MIN_INT <= y <= TWO_31
    ensures MIN_INT * TWO_31 <= x * y <= TWO_31 * TWO_31
  {
    var p, q := Magnitude(x), Magnitude(y);
    ProductAtMost(p, q, TWO_31);
    MagnitudeProduct(x, y);
  }

  function Magnitude(a: int): (m: int)
    ensures m >= 0
  {
    if a >= 0 then a else -a
  }

  lemma MagnitudeProduct(x: int, y: int)
    ensures x * y == Magnitude(x) * Magnitude(y) || x * y == -(Magnitude(x) * Magnitude(y))
  {
    if x >= 0 && y < 0 {
      assert x * -y == -(x * y);
    } else if x < 0 && y >= 0 {
      assert -x * y == -(x * y);
    } else if x < 0 {
      assert -x * -y == x * y;
    }
  }

  lemma HighSigned(h: int, w: bv32)
    requires MIN_INT <= h < TWO_31 && ToNat(w) == h % TWO_32
    ensures ToInt(w) == h
  {
    hide ToNat, ToInt, Sign;
    SignIs(w);
    ToIntIs(w);
  }

  lemma SameLow(a: bv32, b: bv32)
    ensures ToNat(a) * ToNat(b) % TWO_32 == ToInt(a) * ToInt(b) % TWO_32
  {
    hide ToNat, ToInt, Sign, SignWeight;
    var x, y, s, t := ToNat(a), ToNat(b), SignWeight(a), SignWeight(b);
    ToIntWeight(a);
    ToIntWeight(b);
    ExpandSigned(x, y, s, t);
    ModAdd(x * y, s * t * TWO_32 - s * y - t * x);
  }

  // ----- quotients ------------------------------------------------------------------

  lemma DivideNat(a: nat, b: nat)
    requires b > 0
    ensures a == b * (a / b) + a % b && 0 <= a / b <= a && 0 <= a % b < b
  {
    QuotientAtMost(a, b, a / b, a % b);
  }

  lemma QuotientAtMost(a: nat, b: nat, q: nat, r: nat)
    requires b > 0 && a == b * q + r
    ensures q <= a
  {
    MulMonotone(1, b, q);
  }

  lemma MulMonotone(p: nat, q: nat, r: nat)
    requires p <= q
    ensures p * r <= q * r
  {
  }

  /** C++ division: the remainder is smaller than the divisor and has the dividend's sign. */
  lemma RemainderLaws(a: int, b: int)
    requires b != 0
    ensures a == b * Quotient(a, b) + Remainder(a, b)
    ensures a >= 0 ==> 0 <= Remainder(a, b)
    ensures a <= 0 ==> Remainder(a, b) <= 0
    ensures b > 0 ==> -b < Remainder(a, b) < b
    ensures b < 0 ==> b < Remainder(a, b) < -b
  {
    var x, y := if a >= 0 then a else -a, if b > 0 then b else -b;
    DivideNat(x, y);
    var q, r := x / y, x % y;
    if a >= 0 && b > 0 {
      assert Quotient(a, b) == q;
    } else if a >= 0 {
      assert Quotient(a, b) == -q;
      assert b * -q == y * q;
    } else if b > 0 {
      assert Quotient(a, b) == -q;
      assert b * -q == -(y * q);
    } else {
      assert Quotient(a, b) == q;
      assert b * q == -(y * q);
    }
  }

  lemma QuotientBound(a: int, b: int)
    requires b != 0
    ensures 0 - Magnitude(a) <= Quotient(a, b) <= Magnitude(a)
    ensures Quotient(a, b) == Magnitude(a) && a != 0 ==> b == 1 || b == -1
  {
    var x, y := Magnitude(a), Magnitude(b);
    DivideNat(x, y);
    if y > 1 && x > 0 {
      ProperQuotient(x, y);
    }
  }

  lemma ProperQuotient(x: nat, y: nat)
    requires y > 1 && x > 0
    ensures x / y < x
  {
    DivideNat(x, y);
    if x / y >= x {
      assert y * (x / y) >= 2 * (x / y) by { MulMonotone(2, y, x / y); }
    }
  }

  /** The operands of the one signed quotient that does not fit. */
  predicate Overflows(a: bv32, b: bv32) {
    ToInt(a) == MIN_INT && ToInt(b) == -1
  }

  lemma QuotientFits(a: bv32, b: bv32)
    requires ToInt(b) != 0 && !Overflows(a, b)
    ensures MIN_INT <= Quotient(ToInt(a), ToInt(b)) < TWO_31
    ensures MIN_INT <= Remainder(ToInt(a), ToInt(b)) < TWO_31
  {
    hide ToInt, ToNat, Sign, Quotient, Remainder;
    SignIs(a);
    SignIs(b);
    QuotientBound(ToInt(a), ToInt(b));
    RemainderLaws(ToInt(a), ToInt(b));
    if ToInt(b) == 1 { DivideByOne(ToInt(a)); }
  }

  lemma DivideByOne(a: int)
    ensures Quotient(a, 1) == a
  {
  }

  /** Away from zero and overflow DIV and REM are the truncated quotient and its remainder. */
  lemma SignedDivision(a: bv32, b: bv32)
    requires ToInt(b) != 0 && !Overflows(a, b)
    ensures ToInt(Div(a, b)) * ToInt(b) + ToInt(Rem(a, b)) == ToInt(a)
    ensures ToInt(Div(a, b)) == Quotient(ToInt(a), ToInt(b)) && ToInt(Rem(a, b)) == Remainder(ToInt(a), ToInt(b))
  {
    hide ToInt, Wrap, Quotient, Remainder;
    QuotientFits(a, b);
    WrapInt(Quotient(ToInt(a), ToInt(b)));
    WrapInt(Remainder(ToInt(a), ToInt(b)));
    RemainderLaws(ToInt(a), ToInt(b));
  }

  /** For a nonzero divisor the remainder is smaller in magnitude, and zero or of rs1's sign. */
  lemma RemainderIsSmall(a: bv32, b: bv32)
    requires ToInt(b) != 0
    ensures Magnitude(ToInt(Rem(a, b))) < Magnitude(ToInt(b))
    ensures ToInt(Rem(a, b)) == 0 || (ToInt(Rem(a, b)) > 0 <==> ToInt(a) > 0)
  {
    hide Rem, ToInt, Quotient, Remainder;
    if Overflows(a, b) {
      OverflowRemainder(a, b);
    } else {
      SignedDivision(a, b);
      RemainderLaws(ToInt(a), ToInt(b));
    }
  }

  lemma OverflowRemainder(a: bv32, b: bv32)
    requires Overflows(a, b)
    ensures ToInt(Rem(a, b)) == 0 && ToInt(b) == -1
  {
    ZeroIsZero();
    hide ToInt;
  }

  lemma ZeroIsZero()
    ensures ToInt(0) == 0 && ToNat(0) == 0
  {
  }

  lemma OnesAreMinusOne()
    ensures ToNat(0xFFFF_FFFF) == TWO_32 - 1 && ToInt(0xFFFF_FFFF) == -1
  {
  }

  lemma ProductMod(x: int, y: int, s: int, t: int)
    ensures ((x - s * TWO_32) * (y - t * TWO_32)) % TWO_32 == x * y % TWO_32
  {
    ExpandSigned(x, y, s, t);
    ModAdd(x * y, s * t * TWO_32 - s * y - t * x);
  }

  lemma SumMod(x: int, y: int, u: int, v: int)
    requires x % TWO_32 == u % TWO_32 && y % TWO_32 == v % TWO_32
    ensures (x + y) % TWO_32 == (u + v) % TWO_32
  {
    ModMod(x, y);
    ModMod(u, v);
    ModMod(y, u % TWO_32);
    ModMod(v, u % TWO_32);
  }

  /** DIV times rs2 plus REM is rs1 modulo 2^32, division by zero and overflow included. */
  lemma DivisionLaw(a: bv32, b: bv32)
    ensures (ToNat(Div(a, b)) * ToNat(b) + ToNat(Rem(a, b))) % TWO_32 == ToNat(a)
  {
    hide Div, Rem, ToInt, ToNat;
    if ToInt(b) == 0 {
      ByZero(a, b);
    } else if Overflows(a, b) {
      ByMinusOne(a, b);
      assert TWO_31 * (TWO_32 - 1) % TWO_32 == TWO_31;
    } else {
      Ordinary(a, b);
    }
  }

  lemma ByZero(a: bv32, b: bv32)
    requires ToInt(b) == 0
    ensures ToNat(b) == 0 && Div(a, b) == 0xFFFF_FFFF && Rem(a, b) == a && ToNat(a) < TWO_32
  {
    hide ToNat, ToInt, Sign;
    SignIs(b);
    ToIntIs(b);
    ToNatBound(a);
  }

  lemma ByMinusOne(a: bv32, b: bv32)
    requires Overflows(a, b)
    ensures ToNat(a) == TWO_31 && ToNat(b) == TWO_32 - 1 && Div(a, b) == a && ToNat(Rem(a, b)) == 0
  {
    ZeroIsZero();
    hide ToNat, ToInt, Sign;
    SignIs(a);
    SignIs(b);
    ToIntIs(a);
    ToIntIs(b);
  }

  lemma Ordinary(a: bv32, b: bv32)
    requires ToInt(b) != 0 && !Overflows(a, b)
    ensures (ToNat(Div(a, b)) * ToNat(b) + ToNat(Rem(a, b))) % TWO_32 == ToNat(a)
  {
    hide ToNat, ToInt, Sign, SignWeight, Div, Rem, Quotient, Remainder;
    SignedDivision(a, b);
    var q, r := Div(a, b), Rem(a, b);
    ToIntWeight(q);
    ToIntWeight(b);
    ProductMod(ToNat(q), ToNat(b), SignWeight(q), SignWeight(b));
    ToIntMod(r);
    ToNatBound(r);
    ToIntMod(a);
    SumMod(ToNat(q) * ToNat(b), ToNat(r), ToInt(q) * ToInt(b), ToInt(r));
  }

  lemma DivuIs(a: bv32, b: bv32)
    requires ToNat(b) != 0
    ensures ToNat(Divu(a, b)) == ToNat(a) / ToNat(b) && ToNat(Remu(a, b)) == ToNat(a) % ToNat(b)
  {
    hide ToNat, Wrap;
    ToNatBound(a);
    ToNatBound(b);
    DivideNat(ToNat(a), ToNat(b));
    WrapNat(ToNat(a) / ToNat(b));
    WrapNat(ToNat(a) % ToNat(b));
  }

  lemma DivideExactly(x: nat, y: nat)
    requires y > 0
    ensures x / y * y + x % y == x && x % y < y
  {
    DivideNat(x, y);
  }

  /** DIVU and REMU: exact division for a nonzero divisor, the defined results for zero. */
  lemma UnsignedDivisionLaw(a: bv32, b: bv32)
    ensures ToNat(b) != 0 ==>
      ToNat(Divu(a, b)) * ToNat(b) + ToNat(Remu(a, b)) == ToNat(a) && ToNat(Remu(a, b)) < ToNat(b)
    ensures ToNat(b) == 0 ==> ToNat(Divu(a, b)) == TWO_32 - 1 && Remu(a, b) == a
  {
    if ToNat(b) == 0 {
      OnesAreMinusOne();
      hide ToNat, Wrap;
    } else {
      hide *;
      DivuIs(a, b);
      DivideExactly(ToNat(a), ToNat(b));
    }
  }
}
