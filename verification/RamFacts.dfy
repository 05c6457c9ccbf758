/** The flat byte array: words written are words read, and nothing else moves. */
module RamFacts {
  import opened Bus
  import opened Words

  lemma Distinct1(a: bv32)
    ensures a != a + 1 && a + 1 != a + 2 && a + 2 != a + 3
  {
  }

  lemma Distinct2(a: bv32)
    ensures a != a + 2 && a + 1 != a + 3 && a != a + 3
  {
  }

  lemma WordByte0(ram: Ram, a: bv32, value: bv32)
    ensures SetWord(ram, a, value)(a) == ByteOf(value, 0)
  {
    hide ByteOf;
    Distinct1(a);
    Distinct2(a);
  }

  lemma WordByte1(ram: Ram, a: bv32, value: bv32)
    ensures SetWord(ram, a, value)(a + 1) == ByteOf(value, 1)
  {
    hide ByteOf;
    Distinct1(a);
    Distinct2(a);
  }

  lemma WordByte2(ram: Ram, a: bv32, value: bv32)
    ensures SetWord(ram, a, value)(a + 2) == ByteOf(value, 2)
  {
    hide ByteOf;
    Distinct1(a);
    Distinct2(a);
  }

  lemma WordByte3(ram: Ram, a: bv32, value: bv32)
    ensures SetWord(ram, a, value)(a + 3) == ByteOf(value, 3)
  {
    hide ByteOf;
    Distinct1(a);
    Distinct2(a);
  }

  lemma ReadBack(ram: Ram, a: bv32, value: bv32)
    ensures GetWord(SetWord(ram, a, value), a) == value
  {
    hide ByteOf, FromBytes, SetWord;
    WordByte0(ram, a, value);
    WordByte1(ram, a, value);
    WordByte2(ram, a, value);
    WordByte3(ram, a, value);
    WordBytes(value);
  }

  lemma WordElsewhere(ram: Ram, a: bv32, value: bv32, x: bv32)
    requires x != a && x != a + 1 && x != a + 2 && x != a + 3
    ensures SetWord(ram, a, value)(x) == ram(x)
  {
    hide ByteOf;
  }
}
