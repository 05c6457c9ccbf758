/** 32-bit words. Registers, addresses and instructions are `bv32`; multiplication and
    division are done on the numbers the words stand for. */
module Words {

  /** The bit field [lo..hi] of a word, right-aligned. */
  function GetBits(w: bv32, lo: bv6, hi: bv6): bv32
    requires lo <= hi < 32
  {
    (w >> lo) & ((1 << (hi - lo + 1)) - 1)
  }

  /** Bit n of a word. */
  function Bit(word: bv32, n: bv5): bv32 {
    (word >> n) & 1
  }

  /** Byte k of a word, least significant first. */
  function ByteOf(w: bv32, k: nat): bv8
    requires k < 4
  {
    if k == 0 then (w & 0xFF) as bv8
    else if k == 1 then ((w >> 8) & 0xFF) as bv8
    else if k == 2 then ((w >> 16) & 0xFF) as bv8
    else ((w >> 24) & 0xFF) as bv8
  }

  /** The little-endian halfword made of two bytes. */
  function FromHalf(b0: bv8, b1: bv8): bv32 {
    (b0 as bv32) | ((b1 as bv32) << 8)
  }

  /** The little-endian word made of four bytes. */
  function FromBytes(b0: bv8, b1: bv8, b2: bv8, b3: bv8): bv32 {
    (b0 as bv32) | ((b1 as bv32) << 8) | ((b2 as bv32) << 16) | ((b3 as bv32) << 24)
  }

  const TWO_32: nat := 0x1_0000_0000
  const TWO_31: nat := 0x8000_0000

  /** Four base-256 digits, least significant first. */
  function Digits(b0: nat, b1: nat, b2: nat, b3: nat): nat {
    b0 + 0x100 * (b1 + 0x100 * (b2 + 0x100 * b3))
  }

  function NibbleVal(h: bv4): (n: nat)
    ensures n < 0x10
  {
    h as nat
  }

  function HighNibble(b: bv8): bv4 {
    (b >> 4) as bv4
  }

  function LowNibble(b: bv8): bv4 {
    (b & 0xF) as bv4
  }

  /** The number a byte stands for. */
  function ByteVal(b: bv8): (n: nat)
    ensures n < 0x100
  {
    0x10 * NibbleVal(HighNibble(b)) + NibbleVal(LowNibble(b))
  }

  /** The unsigned number a word stands for. */
  function ToNat(w: bv32): nat {
    Digits(ByteVal(ByteOf(w, 0)), ByteVal(ByteOf(w, 1)), ByteVal(ByteOf(w, 2)), ByteVal(ByteOf(w, 3)))
  }

  function JoinNibbles(hi: bv4, lo: bv4): bv8 {
    ((hi as bv8) << 4) | (lo as bv8)
  }

  function Nibble(n: nat): bv4
    requires n < 0x10
  {
    n as bv4
  }

  function Digit(n: nat): bv8
    requires n < 0x100
  {
    JoinNibbles(Nibble(n / 0x10), Nibble(n % 0x10))
  }

  /** The word that stands for n. */
  function FromNat(n: nat): bv32
    requires n < TWO_32
  {
    FromBytes(Digit(n % 0x100), Digit(n / 0x100 % 0x100), Digit(n / 0x100 / 0x100 % 0x100), Digit(n / 0x100 / 0x100 / 0x100))
  }

  /** The two's complement number a word stands for. */
  function ToInt(w: bv32): int {
    if w & 0x8000_0000 != 0 then ToNat(w) - TWO_32 else ToNat(w)
  }

  /** The word for n, wrapped into 32 bits. */
  function Wrap(n: int): bv32 {
    FromNat(n % TWO_32)
  }

  function Hex(x: bv12, k: nat): bv4
    requires k < 3
  {
    if k == 0 then (x & 0xF) as bv4 else if k == 1 then ((x >> 4) & 0xF) as bv4 else (x >> 8) as bv4
  }

  /** Array index for a 12-bit number: a page offset or a CSR number. */
  function Index(x: bv12): (i: nat)
    ensures i < 0x1000
  {
    0x100 * NibbleVal(Hex(x, 2)) + 0x10 * NibbleVal(Hex(x, 1)) + NibbleVal(Hex(x, 0))
  }

  lemma NibbleNext(h: bv4)
    ensures h != 0xF ==> NibbleVal(h + 1) == NibbleVal(h) + 1
    ensures NibbleVal(0xF) == 0xF && NibbleVal(0) == 0
  {
  }

  lemma NibbleInjective(g: bv4, h: bv4)
    requires NibbleVal(g) == NibbleVal(h)
    ensures g == h
  {
    assert (g as int) as bv4 == g;
    assert (h as int) as bv4 == h;
  }

  lemma HexDetermines(x: bv12, y: bv12)
    requires Hex(x, 0) == Hex(y, 0) && Hex(x, 1) == Hex(y, 1) && Hex(x, 2) == Hex(y, 2)
    ensures x == y
  {
  }

  lemma IndexInjective(x: bv12, y: bv12)
    requires Index(x) == Index(y)
    ensures x == y
  {
    hide NibbleVal, Hex;
    NibbleInjective(Hex(x, 2), Hex(y, 2));
    NibbleInjective(Hex(x, 1), Hex(y, 1));
    NibbleInjective(Hex(x, 0), Hex(y, 0));
    HexDetermines(x, y);
  }

  lemma HexNext(x: bv12)
    requires x != 0xFFF
    ensures Hex(x, 0) != 0xF ==> Hex(x + 1, 2) == Hex(x, 2) && Hex(x + 1, 1) == Hex(x, 1) && Hex(x + 1, 0) == Hex(x, 0) + 1
    ensures Hex(x, 0) == 0xF && Hex(x, 1) != 0xF ==> Hex(x + 1, 2) == Hex(x, 2) && Hex(x + 1, 1) == Hex(x, 1) + 1 && Hex(x + 1, 0) == 0
    ensures Hex(x, 0) == 0xF && Hex(x, 1) == 0xF ==> Hex(x, 2) != 0xF && Hex(x + 1, 2) == Hex(x, 2) + 1 && Hex(x + 1, 1) == 0 && Hex(x + 1, 0) == 0
  {
  }

  /** Successive offsets within a page are successive indices. */
  lemma IndexNext(x: bv12)
    requires x != 0xFFF
    ensures Index(x + 1) == Index(x) + 1
  {
    hide NibbleVal, Hex;
    HexNext(x);
    NibbleNext(Hex(x, 2));
    NibbleNext(Hex(x, 1));
    NibbleNext(Hex(x, 0));
  }

  lemma BytesRoundTrip(b0: bv8, b1: bv8, b2: bv8, b3: bv8)
    ensures ByteOf(FromBytes(b0, b1, b2, b3), 0) == b0
    ensures ByteOf(FromBytes(b0, b1, b2, b3), 1) == b1
    ensures ByteOf(FromBytes(b0, b1, b2, b3), 2) == b2
    ensures ByteOf(FromBytes(b0, b1, b2, b3), 3) == b3
  {
  }

  lemma WordBytes(w: bv32)
    ensures FromBytes(ByteOf(w, 0), ByteOf(w, 1), ByteOf(w, 2), ByteOf(w, 3)) == w
  {
  }

  lemma DigitsBound(b0: nat, b1: nat, b2: nat, b3: nat)
    requires b0 < 0x100 && b1 < 0x100 && b2 < 0x100 && b3 < 0x100
    ensures Digits(b0, b1, b2, b3) < TWO_32
  {
  }

  lemma DigitsOf(n: nat)
    requires n < TWO_32
    ensures Digits(n % 0x100, n / 0x100 % 0x100, n / 0x100 / 0x100 % 0x100, n / 0x100 / 0x100 / 0x100) == n
  {
  }

  lemma DigitSplit(b: nat, m: nat)
    requires b < 0x100
    ensures (b + 0x100 * m) % 0x100 == b && (b + 0x100 * m) / 0x100 == m
  {
  }

  lemma DigitsUnique(b0: nat, b1: nat, b2: nat, b3: nat)
    requires b0 < 0x100 && b1 < 0x100 && b2 < 0x100 && b3 < 0x100
    ensures Digits(b0, b1, b2, b3) % 0x100 == b0
    ensures Digits(b0, b1, b2, b3) / 0x100 % 0x100 == b1
    ensures Digits(b0, b1, b2, b3) / 0x100 / 0x100 % 0x100 == b2
    ensures Digits(b0, b1, b2, b3) / 0x100 / 0x100 / 0x100 == b3
  {
    DigitSplit(b2, b3);
    DigitSplit(b1, b2 + 0x100 * b3);
    DigitSplit(b0, b1 + 0x100 * (b2 + 0x100 * b3));
  }

  lemma NibbleRoundTrip(h: bv4, n: nat)
    requires n < 0x10
    ensures NibbleVal(Nibble(n)) == n && Nibble(NibbleVal(h)) == h
  {
  }

  lemma NibblesOfJoin(hi: bv4, lo: bv4, b: bv8)
    ensures HighNibble(JoinNibbles(hi, lo)) == hi
    ensures LowNibble(JoinNibbles(hi, lo)) == lo
    ensures JoinNibbles(HighNibble(b), LowNibble(b)) == b
  {
  }

  lemma ValOfDigit(n: nat)
    requires n < 0x100
    ensures ByteVal(Digit(n)) == n
  {
    hide NibbleVal, Nibble, JoinNibbles, HighNibble, LowNibble;
    NibbleRoundTrip(0, n / 0x10);
    NibbleRoundTrip(0, n % 0x10);
    NibblesOfJoin(Nibble(n / 0x10), Nibble(n % 0x10), 0);
  }

  lemma DigitOfVal(b: bv8)
    ensures Digit(ByteVal(b)) == b
  {
    hide NibbleVal, Nibble, JoinNibbles, HighNibble, LowNibble;
    var h, l := NibbleVal(HighNibble(b)), NibbleVal(LowNibble(b));
    assert (0x10 * h + l) / 0x10 == h && (0x10 * h + l) % 0x10 == l;
    NibbleRoundTrip(HighNibble(b), 0);
    NibbleRoundTrip(LowNibble(b), 0);
    NibblesOfJoin(0, 0, b);
  }

  lemma ToNatBound(w: bv32)
    ensures ToNat(w) < TWO_32
  {
    hide ByteVal;
    DigitsBound(ByteVal(ByteOf(w, 0)), ByteVal(ByteOf(w, 1)), ByteVal(ByteOf(w, 2)), ByteVal(ByteOf(w, 3)));
  }

  /** Words and the numbers below 2^32 are in bijection. */
  lemma NatRoundTrip(n: nat)
    requires n < TWO_32
    ensures ToNat(FromNat(n)) == n
  {
    hide ByteVal, Digit;
    ValOfDigit(n % 0x100);
    ValOfDigit(n / 0x100 % 0x100);
    ValOfDigit(n / 0x100 / 0x100 % 0x100);
    ValOfDigit(n / 0x100 / 0x100 / 0x100);
    BytesRoundTrip(Digit(n % 0x100), Digit(n / 0x100 % 0x100),
                   Digit(n / 0x100 / 0x100 % 0x100), Digit(n / 0x100 / 0x100 / 0x100));
    DigitsOf(n);
  }

  lemma WordRoundTrip(w: bv32)
    ensures ToNat(w) < TWO_32 && FromNat(ToNat(w)) == w
  {
    hide ByteVal, Digit;
    var b0, b1, b2, b3 := ByteOf(w, 0), ByteOf(w, 1), ByteOf(w, 2), ByteOf(w, 3);
    ToNatBound(w);
    DigitsUnique(ByteVal(b0), ByteVal(b1), ByteVal(b2), ByteVal(b3));
    DigitOfVal(b0);
    DigitOfVal(b1);
    DigitOfVal(b2);
    DigitOfVal(b3);
    WordBytes(w);
  }
}
