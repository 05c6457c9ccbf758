/** Comparisons of words as comparisons of the numbers they stand for, and register shifts. */
module AluLaws {
  import opened Alu
  import opened Isa
  import opened Ranges
  import opened Words

  lemma DigitOrder(g: bv4, h: bv4)
    ensures DigitBelow(g, h) <==> NibbleVal(g) < NibbleVal(h)
    ensures g == h <==> NibbleVal(g) == NibbleVal(h)
  {
  }

  /** Digits k and below of `a` are less than those of `b`. */
  predicate Less(a: bv32, b: bv32, k: nat)
    requires k < 8
  {
    DigitBelow(HexDigit(a, k), HexDigit(b, k)) || (HexDigit(a, k) == HexDigit(b, k) && k > 0 && Less(a, b, k - 1))
  }

  /** The number made of digits k and below. */
  function Low(w: bv32, k: nat): nat
    requires k < 8
  {
    N(w, k) * Weight(k) + if k == 0 then 0 else Low(w, k - 1)
  }

  function Weight(k: nat): nat {
    if k == 0 then 1 else 0x10 * Weight(k - 1)
  }

  lemma {:induction false} LowBound(w: bv32, k: nat)
    requires k < 8
    ensures Low(w, k) < 0x10 * Weight(k)
  {
    hide N;
    DigitBounds(w);
    var n, weight := N(w, k), Weight(k);
    assert n * weight <= 15 * weight by { AtMost(n, 15, weight); }
    if k > 0 {
      LowBound(w, k - 1);
    }
  }

  lemma AtMost(x: nat, y: nat, z: nat)
    requires x <= y
    ensures x * z <= y * z
  {
  }

  lemma {:induction false} LessIs(a: bv32, b: bv32, k: nat)
    requires k < 8
    ensures Less(a, b, k) <==> Low(a, k) < Low(b, k)
  {
    DigitOrder(HexDigit(a, k), HexDigit(b, k));
    hide HexDigit, NibbleVal, DigitBelow;
    var x, y, weight := N(a, k), N(b, k), Weight(k);
    var p, q := if k == 0 then 0 else Low(a, k - 1), if k == 0 then 0 else Low(b, k - 1);
    if k > 0 {
      LowBound(a, k - 1);
      LowBound(b, k - 1);
      LessIs(a, b, k - 1);
    }
    Lexicographic(x, y, p, q, weight);
  }

  lemma Lexicographic(x: nat, y: nat, p: nat, q: nat, weight: nat)
    requires p < weight && q < weight
    ensures x * weight + p < y * weight + q <==> x < y || (x == y && p < q)
  {
    if x < y {
      AtMost(x + 1, y, weight);
    } else if y < x {
      AtMost(y + 1, x, weight);
    }
  }

  lemma LowIsAll(w: bv32)
    ensures Low(w, 7) == ToNat(w)
  {
    hide N;
    ToNatIs(w);
    assert Weight(1) == 0x10 && Weight(2) == 0x100 && Weight(3) == 0x1000 && Weight(4) == 0x1_0000;
    assert Weight(5) == 0x10_0000 && Weight(6) == 0x100_0000 && Weight(7) == 0x1000_0000;
    assert Low(w, 1) == N(w, 0) + 0x10 * N(w, 1);
    assert Low(w, 3) == Low(w, 1) + 0x100 * N(w, 2) + 0x1000 * N(w, 3);
    assert Low(w, 5) == Low(w, 3) + 0x1_0000 * N(w, 4) + 0x10_0000 * N(w, 5);
  }

  predicate Below(x: bv32, y: bv32) {
    x < y
  }

  predicate DigitBelow(g: bv4, h: bv4) {
    g < h
  }

  lemma Order0(a: bv32, b: bv32)
    ensures Below(a & 0xF, b & 0xF) <==> DigitBelow(HexDigit(a, 0), HexDigit(b, 0))
  {
  }

  lemma Order1(a: bv32, b: bv32)
    ensures Below(a & 0xFF, b & 0xFF) <==>
      (DigitBelow(HexDigit(a, 1), HexDigit(b, 1)) || (HexDigit(a, 1) == HexDigit(b, 1) && Below(a & 0xF, b & 0xF)))
  {
  }

  lemma Order2(a: bv32, b: bv32)
    ensures Below(a & 0xFFF, b & 0xFFF) <==>
      (DigitBelow(HexDigit(a, 2), HexDigit(b, 2)) || (HexDigit(a, 2) == HexDigit(b, 2) && Below(a & 0xFF, b & 0xFF)))
  {
  }

  lemma Order3(a: bv32, b: bv32)
    ensures Below(a & 0xFFFF, b & 0xFFFF) <==>
      (DigitBelow(HexDigit(a, 3), HexDigit(b, 3)) || (HexDigit(a, 3) == HexDigit(b, 3) && Below(a & 0xFFF, b & 0xFFF)))
  {
  }

  lemma Order4(a: bv32, b: bv32)
    ensures Below(a & 0xF_FFFF, b & 0xF_FFFF) <==>
      (DigitBelow(HexDigit(a, 4), HexDigit(b, 4)) || (HexDigit(a, 4) == HexDigit(b, 4) && Below(a & 0xFFFF, b & 0xFFFF)))
  {
  }

  lemma Order5(a: bv32, b: bv32)
    ensures Below(a & 0xFF_FFFF, b & 0xFF_FFFF) <==>
      (DigitBelow(HexDigit(a, 5), HexDigit(b, 5)) || (HexDigit(a, 5) == HexDigit(b, 5) && Below(a & 0xF_FFFF, b & 0xF_FFFF)))
  {
  }

  lemma Order6(a: bv32, b: bv32)
    ensures Below(a & 0xFFF_FFFF, b & 0xFFF_FFFF) <==>
      (DigitBelow(HexDigit(a, 6), HexDigit(b, 6)) || (HexDigit(a, 6) == HexDigit(b, 6) && Below(a & 0xFF_FFFF, b & 0xFF_FFFF)))
  {
  }

  lemma Order7(a: bv32, b: bv32)
    ensures Below(a & 0xFFFF_FFFF, b & 0xFFFF_FFFF) <==>
      (DigitBelow(HexDigit(a, 7), HexDigit(b, 7)) || (HexDigit(a, 7) == HexDigit(b, 7) && Below(a & 0xFFF_FFFF, b & 0xFFF_FFFF)))
  {
  }

  lemma WholeWord(a: bv32, b: bv32)
    ensures Below(a & 0xFFFF_FFFF, b & 0xFFFF_FFFF) <==> a < b
  {
  }

  lemma {:induction false} LessByDigits(a: bv32, b: bv32)
    ensures a < b <==> Less(a, b, 7)
  {
    hide Below, DigitBelow, HexDigit;
    Order0(a, b);
    Order1(a, b);
    Order2(a, b);
    Order3(a, b);
    Order4(a, b);
    Order5(a, b);
    Order6(a, b);
    Order7(a, b);
    WholeWord(a, b);
    assert Below(a & 0xF, b & 0xF) <==> Less(a, b, 0);
    assert Below(a & 0xFFF, b & 0xFFF) <==> Less(a, b, 2);
    assert Below(a & 0xF_FFFF, b & 0xF_FFFF) <==> Less(a, b, 4);
    assert Below(a & 0xFFF_FFFF, b & 0xFFF_FFFF) <==> Less(a, b, 6);
  }

  /** The order of words is the order of the numbers they stand for. */
  lemma UnsignedOrder(a: bv32, b: bv32)
    ensures a < b <==> ToNat(a) < ToNat(b)
  {
    hide *;
    LessByDigits(a, b);
    LessIs(a, b, 7);
    LowIsAll(a);
    LowIsAll(b);
  }

  /** The unsigned comparisons compare unsigned numbers. */
  lemma UnsignedComparisons(a: bv32, b: bv32)
    ensures RegisterResult(SLTU, a, b) == Flag(ToNat(a) < ToNat(b)) && ImmediateResult(SLTIU, a, b) == Flag(ToNat(a) < ToNat(b))
    ensures BranchTaken(BLTU, a, b) <==> ToNat(a) < ToNat(b)
    ensures BranchTaken(BGEU, a, b) <==> ToNat(a) >= ToNat(b)
  {
    hide ToNat;
    UnsignedOrder(a, b);
  }

  lemma SmallerSigned(current: bv32, b: bv32)
    ensures var r := AmoResult(AMOMIN, current, b); (r == current || r == b) && ToInt(r) <= ToInt(current) && ToInt(r) <= ToInt(b)
  {
    hide ToInt;
  }

  lemma LargerSigned(current: bv32, b: bv32)
    ensures var r := AmoResult(AMOMAX, current, b); (r == current || r == b) && ToInt(r) >= ToInt(current) && ToInt(r) >= ToInt(b)
  {
    hide ToInt;
  }

  /** AMOMIN and AMOMAX keep the smaller and the larger of the two words as signed numbers. */
  lemma SignedExtremes(current: bv32, b: bv32)
    ensures var r := AmoResult(AMOMIN, current, b); (r == current || r == b) && ToInt(r) <= ToInt(current) && ToInt(r) <= ToInt(b)
    ensures var r := AmoResult(AMOMAX, current, b); (r == current || r == b) && ToInt(r) >= ToInt(current) && ToInt(r) >= ToInt(b)
  {
    hide *;
    SmallerSigned(current, b);
    LargerSigned(current, b);
  }

  lemma UnsignedMin(current: bv32, b: bv32)
    ensures AmoResult(AMOMINU, current, b) == if ToNat(b) < ToNat(current) then b else current
  {
    hide ToNat, ToInt;
    UnsignedOrder(b, current);
  }

  lemma UnsignedMax(current: bv32, b: bv32)
    ensures AmoResult(AMOMAXU, current, b) == if ToNat(current) < ToNat(b) then b else current
  {
    hide ToNat, ToInt;
    UnsignedOrder(current, b);
  }

  /** AMOMINU and AMOMAXU keep the smaller and the larger as unsigned numbers. */
  lemma UnsignedExtremes(current: bv32, b: bv32)
    ensures var r := AmoResult(AMOMINU, current, b); (r == current || r == b) && ToNat(r) <= ToNat(current) && ToNat(r) <= ToNat(b)
    ensures var r := AmoResult(AMOMAXU, current, b); (r == current || r == b) && ToNat(r) >= ToNat(current) && ToNat(r) >= ToNat(b)
  {
    hide *;
    UnsignedMin(current, b);
    UnsignedMax(current, b);
  }

  // ----- register shifts -----------------------------------------------------------------

  /** The immediate form of a shift. */
  function ImmediateShift(op: ROp): IOp
    requires IsShift(op)
  {
    if op.SLL? then SLLI else if op.SRL? then SRLI else SRAI
  }

  lemma SixBits(b: bv32)
    ensures ShiftField(b) < 32 <==> b & 0x20 == 0
  {
  }

  lemma FiveBits(b: bv32)
    ensures Amount(b & 0x1F) == Amount(b)
  {
  }

  /** Register shifts take six bits of rs2. They have a result exactly when bit 5 is clear, and it
      is then the shift by the low five bits that the manual asks for. */
  lemma ShiftsExactly(op: ROp, a: bv32, b: bv32)
    requires IsShift(op)
    ensures Defined(op, b) <==> b & 0x20 == 0
    ensures RegisterResult(op, a, b) == ImmediateResult(ImmediateShift(op), a, b & 0x1F)
  {
    hide ShiftField, Amount, ShiftLeft, ShiftRight, ArithmeticShift;
    SixBits(b);
    FiveBits(b);
  }
}
