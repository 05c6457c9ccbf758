/** Signed ranges of words as bit patterns. */
module Ranges {
  import opened Formats
  import opened Words

  /** Hexadecimal digit k of a word, least significant first. */
  function HexDigit(w: bv32, k: nat): bv4
    requires k < 8
  {
    if k % 2 == 0 then LowNibble(ByteOf(w, k / 2)) else HighNibble(ByteOf(w, k / 2))
  }

  function N(w: bv32, k: nat): nat
    requires k < 8
  {
    NibbleVal(HexDigit(w, k))
  }

  lemma ToNatIs(w: bv32)
    ensures ToNat(w) == N(w, 0) + 0x10 * N(w, 1) + 0x100 * N(w, 2) + 0x1000 * N(w, 3) + 0x1_0000 * N(w, 4)
      + 0x10_0000 * N(w, 5) + 0x100_0000 * N(w, 6) + 0x1000_0000 * N(w, 7)
  {
    hide NibbleVal, LowNibble, HighNibble, ByteOf;
  }

  predicate Sign(w: bv32) {
    w & 0x8000_0000 != 0
  }

  lemma ToIntIs(w: bv32)
    ensures ToInt(w) == if Sign(w) then ToNat(w) - TWO_32 else ToNat(w)
  {
    hide ToNat;
  }

  lemma DigitBounds(w: bv32)
    ensures forall k {:trigger N(w, k)} :: 0 <= k < 8 ==> N(w, k) < 16
  {
    hide HexDigit;
  }

  // ----- from digit values to bits -------------------------------------------------

  lemma NibbleFacts(h: bv4)
    ensures NibbleVal(h) < 8 ==> h < 8
    ensures NibbleVal(h) >= 8 ==> h >= 8
    ensures NibbleVal(h) < 2 ==> h < 2
    ensures NibbleVal(h) == 0 ==> h == 0
    ensures NibbleVal(h) == 15 ==> h == 15
    ensures NibbleVal(h) % 2 == 0 ==> h & 1 == 0
  {
  }

  lemma Upper5(w: bv32, h: bv4)
    requires HexDigit(w, 3) == h && HexDigit(w, 4) == h && HexDigit(w, 5) == h && HexDigit(w, 6) == h && HexDigit(w, 7) == h
    ensures h == 0 ==> w & 0xFFFF_F000 == 0
    ensures h == 15 ==> w & 0xFFFF_F000 == 0xFFFF_F000
  {
  }

  lemma Upper3(w: bv32, h: bv4)
    requires HexDigit(w, 5) == h && HexDigit(w, 6) == h && HexDigit(w, 7) == h
    ensures h == 0 ==> w & 0xFFF0_0000 == 0
    ensures h == 15 ==> w & 0xFFF0_0000 == 0xFFF0_0000
  {
  }

  lemma Digit2(w: bv32)
    ensures HexDigit(w, 2) < 8 ==> w & 0x800 == 0
    ensures HexDigit(w, 2) >= 8 ==> w & 0x800 == 0x800
  {
  }

  lemma Digit0(w: bv32)
    ensures HexDigit(w, 0) & 1 == 0 ==> w & 1 == 0
  {
  }

  lemma Low5(w: bv32)
    requires w & 0xFFFF_F000 == 0 && HexDigit(w, 2) == 0 && HexDigit(w, 1) < 2
    ensures w & 0xFFFF_FFE0 == 0
  {
  }

  lemma Join12(w: bv32)
    ensures w & 0xFFFF_F000 == 0 && w & 0x800 == 0 ==> w & 0xFFFF_F800 == 0
    ensures w & 0xFFFF_F000 == 0xFFFF_F000 && w & 0x800 == 0x800 ==> w & 0xFFFF_F800 == 0xFFFF_F800
  {
  }

  // ----- ranges ------------------------------------------------------------------------

  lemma UpperDigits5(w: bv32)
    requires -4096 <= ToInt(w) < 4096
    ensures !Sign(w) ==> N(w, 3) == 0 && N(w, 4) == 0 && N(w, 5) == 0 && N(w, 6) == 0 && N(w, 7) == 0
    ensures Sign(w) ==> N(w, 3) == 15 && N(w, 4) == 15 && N(w, 5) == 15 && N(w, 6) == 15 && N(w, 7) == 15
    ensures -2048 <= ToInt(w) < 2048 ==> (N(w, 2) < 8 <==> !Sign(w))
    ensures 0 <= ToInt(w) < 32 ==> !Sign(w) && N(w, 2) == 0 && N(w, 1) < 2
  {
    hide N, ToNat, ToInt, Sign;
    ToIntIs(w);
    ToNatIs(w);
    DigitBounds(w);
  }

  lemma UpperDigits3(w: bv32)
    requires -1048576 <= ToInt(w) < 1048576
    ensures !Sign(w) ==> N(w, 5) == 0 && N(w, 6) == 0 && N(w, 7) == 0
    ensures Sign(w) ==> N(w, 5) == 15 && N(w, 6) == 15 && N(w, 7) == 15
  {
    hide N, ToNat, ToInt, Sign;
    ToIntIs(w);
    ToNatIs(w);
    DigitBounds(w);
  }

  lemma Parity(w: bv32)
    requires ToInt(w) % 2 == 0
    ensures w & 1 == 0
  {
    EvenDigit(w);
    NibbleFacts(HexDigit(w, 0));
    hide *;
    Digit0(w);
  }

  lemma EvenDigit(w: bv32)
    requires ToInt(w) % 2 == 0
    ensures N(w, 0) % 2 == 0
  {
    hide N, ToNat, ToInt, Sign;
    ToIntIs(w);
    ToNatIs(w);
  }

  lemma UpperPart5(w: bv32)
    requires -4096 <= ToInt(w) < 4096
    ensures !Sign(w) ==> w & 0xFFFF_F000 == 0
    ensures Sign(w) ==> w & 0xFFFF_F000 == 0xFFFF_F000
  {
    UpperDigits5(w);
    hide ToInt, Sign, HexDigit, NibbleVal;
    NibbleFacts(HexDigit(w, 3));
    NibbleFacts(HexDigit(w, 4));
    NibbleFacts(HexDigit(w, 5));
    NibbleFacts(HexDigit(w, 6));
    NibbleFacts(HexDigit(w, 7));
    Upper5(w, HexDigit(w, 7));
  }

  lemma UpperPart3(w: bv32)
    requires -1048576 <= ToInt(w) < 1048576
    ensures !Sign(w) ==> w & 0xFFF0_0000 == 0
    ensures Sign(w) ==> w & 0xFFF0_0000 == 0xFFF0_0000
  {
    UpperDigits3(w);
    hide ToInt, Sign, HexDigit, NibbleVal;
    NibbleFacts(HexDigit(w, 5));
    NibbleFacts(HexDigit(w, 6));
    NibbleFacts(HexDigit(w, 7));
    Upper3(w, HexDigit(w, 7));
  }

  lemma Bit11(w: bv32)
    requires -2048 <= ToInt(w) < 2048
    ensures !Sign(w) ==> w & 0x800 == 0
    ensures Sign(w) ==> w & 0x800 == 0x800
  {
    UpperDigits5(w);
    hide ToInt, Sign, HexDigit, NibbleVal;
    NibbleFacts(HexDigit(w, 2));
    Digit2(w);
  }

  // ----- from bits to digit values -----------------------------------------------------

  lemma NibbleValues(h: bv4)
    ensures h == 0 ==> NibbleVal(h) == 0
    ensures h == 15 ==> NibbleVal(h) == 15
    ensures h < 8 ==> NibbleVal(h) < 8
    ensures h >= 8 ==> NibbleVal(h) >= 8
    ensures h & 1 == 0 ==> NibbleVal(h) % 2 == 0
  {
  }

  lemma ClearDigits5(w: bv32)
    requires w & 0xFFFF_F000 == 0
    ensures !Sign(w) && HexDigit(w, 3) == 0 && HexDigit(w, 4) == 0 && HexDigit(w, 5) == 0 && HexDigit(w, 6) == 0 && HexDigit(w, 7) == 0
  {
  }

  lemma SetDigits5(w: bv32)
    requires w & 0xFFFF_F000 == 0xFFFF_F000
    ensures Sign(w) && HexDigit(w, 3) == 15 && HexDigit(w, 4) == 15 && HexDigit(w, 5) == 15 && HexDigit(w, 6) == 15 && HexDigit(w, 7) == 15
  {
  }

  lemma ClearDigits3(w: bv32)
    requires w & 0xFFF0_0000 == 0
    ensures !Sign(w) && HexDigit(w, 5) == 0 && HexDigit(w, 6) == 0 && HexDigit(w, 7) == 0
  {
  }

  lemma SetDigits3(w: bv32)
    requires w & 0xFFF0_0000 == 0xFFF0_0000
    ensures Sign(w) && HexDigit(w, 5) == 15 && HexDigit(w, 6) == 15 && HexDigit(w, 7) == 15
  {
  }

  lemma LowDigits(w: bv32)
    ensures w & 0x800 == 0 ==> HexDigit(w, 2) < 8
    ensures w & 0x800 != 0 ==> HexDigit(w, 2) >= 8
    ensures w & 1 == 0 ==> HexDigit(w, 0) & 1 == 0
  {
  }

  lemma Split12(w: bv32)
    ensures w & 0xFFFF_F800 == 0 ==> w & 0xFFFF_F000 == 0 && w & 0x800 == 0
    ensures w & 0xFFFF_F800 == 0xFFFF_F800 ==> w & 0xFFFF_F000 == 0xFFFF_F000 && w & 0x800 != 0
  {
  }

  /** The value of a word whose upper five digits are all clear or all set. */
  lemma Value5(w: bv32)
    requires w & 0xFFFF_F000 == 0 || w & 0xFFFF_F000 == 0xFFFF_F000
    ensures ToInt(w) == N(w, 0) + 0x10 * N(w, 1) + 0x100 * N(w, 2) - if w & 0xFFFF_F000 == 0 then 0 else 0x1000
  {
    hide ToNat, ToInt, Sign, HexDigit, NibbleVal;
    ToIntIs(w);
    ToNatIs(w);
    NibbleValues(0);
    NibbleValues(15);
    if w & 0xFFFF_F000 == 0 {
      ClearDigits5(w);
    } else {
      SetDigits5(w);
    }
  }

  /** The value of a word whose upper three digits are all clear or all set. */
  lemma Value3(w: bv32)
    requires w & 0xFFF0_0000 == 0 || w & 0xFFF0_0000 == 0xFFF0_0000
    ensures ToInt(w) == N(w, 0) + 0x10 * N(w, 1) + 0x100 * N(w, 2) + 0x1000 * N(w, 3) + 0x1_0000 * N(w, 4)
      - if w & 0xFFF0_0000 == 0 then 0 else 0x10_0000
  {
    hide ToNat, ToInt, Sign, HexDigit, NibbleVal;
    ToIntIs(w);
    ToNatIs(w);
    NibbleValues(0);
    NibbleValues(15);
    if w & 0xFFF0_0000 == 0 {
      ClearDigits3(w);
    } else {
      SetDigits3(w);
    }
  }

  lemma FitsRange12(w: bv32)
    requires Fits12(w)
    ensures -2048 <= ToInt(w) <= 2047
  {
    Split12(w);
    LowDigits(w);
    NibbleValues(HexDigit(w, 2));
    hide ToInt, HexDigit, NibbleVal;
    Value5(w);
    DigitBounds(w);
  }

  lemma EvenN(w: bv32)
    requires w & 1 == 0
    ensures N(w, 0) % 2 == 0
  {
    LowDigits(w);
    NibbleValues(HexDigit(w, 0));
    hide HexDigit, NibbleVal;
  }

  lemma EvenSum(n: nat, k: int)
    requires n % 2 == 0
    ensures (n + 2 * k) % 2 == 0
  {
  }

  lemma FitsRange13(w: bv32)
    requires Fits13(w)
    ensures -4096 <= ToInt(w) <= 4094 && ToInt(w) % 2 == 0
  {
    hide ToInt, N;
    EvenN(w);
    Value5(w);
    DigitBounds(w);
    var sign := if w & 0xFFFF_F000 == 0 then 0 else 0x800;
    EvenSum(N(w, 0), 8 * N(w, 1) + 0x80 * N(w, 2) - sign);
  }

  lemma FitsRange21(w: bv32)
    requires Fits21(w)
    ensures -1048576 <= ToInt(w) <= 1048574 && ToInt(w) % 2 == 0
  {
    hide ToInt, N;
    EvenN(w);
    Value3(w);
    DigitBounds(w);
    var sign := if w & 0xFFF0_0000 == 0 then 0 else 0x8_0000;
    EvenSum(N(w, 0), 8 * N(w, 1) + 0x80 * N(w, 2) + 0x800 * N(w, 3) + 0x8000 * N(w, 4) - sign);
  }

  /** In range as a number, and a 12-bit signed immediate as a word, are the same. */
  lemma RangeFits12(w: bv32)
    ensures -2048 <= ToInt(w) <= 2047 <==> Fits12(w)
  {
    hide ToInt, Sign;
    if Fits12(w) {
      FitsRange12(w);
    } else if -2048 <= ToInt(w) <= 2047 {
      UpperPart5(w);
      Bit11(w);
      Join12(w);
    }
  }

  lemma RangeFits13(w: bv32)
    ensures -4096 <= ToInt(w) <= 4094 && ToInt(w) % 2 == 0 <==> Fits13(w)
  {
    hide ToInt, Sign;
    if Fits13(w) {
      FitsRange13(w);
    } else if -4096 <= ToInt(w) <= 4094 && ToInt(w) % 2 == 0 {
      UpperPart5(w);
      Parity(w);
    }
  }

  lemma RangeFits21(w: bv32)
    ensures -1048576 <= ToInt(w) <= 1048574 && ToInt(w) % 2 == 0 <==> Fits21(w)
  {
    hide ToInt, Sign;
    if Fits21(w) {
      FitsRange21(w);
    } else if -1048576 <= ToInt(w) <= 1048574 && ToInt(w) % 2 == 0 {
      UpperPart3(w);
      Parity(w);
    }
  }

  predicate Fits5(w: bv32) {
    w & 0xFFFF_FFE0 == 0
  }

  lemma SmallDigits(w: bv32)
    requires Fits5(w)
    ensures w & 0xFFFF_F000 == 0 && HexDigit(w, 2) == 0 && HexDigit(w, 1) < 2
  {
  }

  lemma SmallNibble(h: bv4)
    requires h < 2
    ensures NibbleVal(h) < 2
  {
  }

  lemma FitsRange5(w: bv32)
    requires Fits5(w)
    ensures 0 <= ToInt(w) <= 31
  {
    SmallDigits(w);
    SmallNibble(HexDigit(w, 1));
    NibbleValues(0);
    hide ToInt, HexDigit, NibbleVal;
    Value5(w);
    DigitBounds(w);
  }

  lemma RangeFits5(w: bv32)
    requires 0 <= ToInt(w) <= 31
    ensures Fits5(w)
  {
    UpperDigits5(w);
    hide ToInt, Sign, HexDigit, NibbleVal;
    UpperPart5(w);
    NibbleFacts(HexDigit(w, 2));
    NibbleFacts(HexDigit(w, 1));
    Low5(w);
  }
}
