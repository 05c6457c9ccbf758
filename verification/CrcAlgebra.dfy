/** The CRC loop computes a remainder: polynomials over GF(2) are finite sets of exponents. */
module CrcAlgebra {
  import opened Crc16

  // ----- the register -------------------------------------------------------------

  predicate Fits(crc: bv32) {
    crc < 0x1_0000
  }

  lemma ShiftBitFits(crc: bv32)
    requires Fits(crc)
    ensures Fits(ShiftBit(crc))
  {
  }

  lemma {:induction false} ShiftBitsFits(crc: bv32, n: nat)
    requires Fits(crc)
    ensures Fits(ShiftBits(crc, n))
  {
    hide Fits, ShiftBit;
    if n > 0 {
      ShiftBitsFits(crc, n - 1);
      ShiftBitFits(ShiftBits(crc, n - 1));
    }
  }

  lemma MixFits(crc: bv32, b: bv8)
    requires Fits(crc)
    ensures Fits(Mix(crc, b))
  {
  }

  /** The register stays below 2^16 after every byte. */
  lemma {:induction false} RegisterFits(crc: bv32, message: seq<bv8>)
    requires Fits(crc)
    ensures Fits(Register(crc, message))
    decreases |message|
  {
    hide Fits, ShiftBits, Mix, AddByte;
    if message != [] {
      var before, last := message[..|message| - 1], message[|message| - 1];
      RegisterFits(crc, before);
      MixFits(Register(crc, before), last);
      ShiftBitsFits(Mix(Register(crc, before), last), 8);
      AddByteIs(Register(crc, before), last);
    }
  }

  /** And after every bit of the byte being added. */
  lemma BitsFit(message: seq<bv8>, b: bv8, n: nat)
    ensures Fits(ShiftBits(Mix(Register(0, message), b), n))
  {
    ZeroFits();
    hide Fits, ShiftBits, Mix, AddByte;
    RegisterFits(0, message);
    MixFits(Register(0, message), b);
    ShiftBitsFits(Mix(Register(0, message), b), n);
  }

  lemma AddByteIs(crc: bv32, b: bv8)
    ensures AddByte(crc, b) == ShiftBits(Mix(crc, b), 8)
  {
    hide ShiftBits;
  }

  // ----- linearity -----------------------------------------------------------------

  /** Addition of registers. */
  function Sum(a: bv32, b: bv32): bv32 {
    a ^ b
  }

  function ByteSum(x: bv8, y: bv8): bv8 {
    x ^ y
  }

  /** The bit that leaves the register. */
  predicate Carries(crc: bv32) {
    crc & 0x8000 != 0
  }

  /** Multiplication by x, into bit 16. */
  function Up(crc: bv32): bv32 {
    crc << 1
  }

  /** Subtraction of the generator. */
  function Reduce(crc: bv32): bv32 {
    crc ^ 0x1_1021
  }

  lemma ShiftBitIs(crc: bv32)
    ensures ShiftBit(crc) == if Carries(crc) then Reduce(Up(crc)) else Up(crc)
  {
  }

  lemma SumCarries(a: bv32, b: bv32)
    ensures Carries(Sum(a, b)) == (Carries(a) != Carries(b))
  {
  }

  lemma UpLinear(a: bv32, b: bv32)
    ensures Up(Sum(a, b)) == Sum(Up(a), Up(b))
  {
  }

  lemma ReduceFirst(a: bv32, b: bv32)
    ensures Reduce(Sum(a, b)) == Sum(Reduce(a), b)
  {
  }

  lemma ReduceSecond(a: bv32, b: bv32)
    ensures Reduce(Sum(a, b)) == Sum(a, Reduce(b))
  {
  }

  lemma ReduceTwice(a: bv32, b: bv32)
    ensures Sum(a, b) == Sum(Reduce(a), Reduce(b))
  {
  }

  lemma ShiftBitLinear(a: bv32, b: bv32)
    ensures ShiftBit(Sum(a, b)) == Sum(ShiftBit(a), ShiftBit(b))
  {
    hide *;
    ShiftBitIs(a);
    ShiftBitIs(b);
    ShiftBitIs(Sum(a, b));
    SumCarries(a, b);
    UpLinear(a, b);
    ReduceFirst(Up(a), Up(b));
    ReduceSecond(Up(a), Up(b));
    ReduceTwice(Up(a), Up(b));
  }

  lemma {:induction false} ShiftBitsLinear(a: bv32, b: bv32, n: nat)
    ensures ShiftBits(Sum(a, b), n) == Sum(ShiftBits(a, n), ShiftBits(b, n))
  {
    hide ShiftBit, Sum;
    if n > 0 {
      ShiftBitsLinear(a, b, n - 1);
      ShiftBitLinear(ShiftBits(a, n - 1), ShiftBits(b, n - 1));
    }
  }

  lemma MixLinear(a: bv32, b: bv32, x: bv8, y: bv8)
    ensures Mix(Sum(a, b), ByteSum(x, y)) == Sum(Mix(a, x), Mix(b, y))
  {
  }

  lemma AddByteLinear(c: bv32, d: bv32, x: bv8, y: bv8)
    ensures AddByte(Sum(c, d), ByteSum(x, y)) == Sum(AddByte(c, x), AddByte(d, y))
  {
    hide *;
    AddByteIs(c, x);
    AddByteIs(d, y);
    AddByteIs(Sum(c, d), ByteSum(x, y));
    MixLinear(c, d, x, y);
    ShiftBitsLinear(Mix(c, x), Mix(d, y), 8);
  }

  /** Two messages of one length added byte by byte. */
  function Xor(a: seq<bv8>, b: seq<bv8>): (r: seq<bv8>)
    requires |a| == |b|
    ensures |r| == |a| && forall i :: 0 <= i < |a| ==> r[i] == ByteSum(a[i], b[i])
  {
    seq(|a|, i requires 0 <= i < |a| => ByteSum(a[i], b[i]))
  }

  /** On messages of equal length the register is linear. */
  lemma {:induction false} RegisterLinear(c: bv32, d: bv32, a: seq<bv8>, b: seq<bv8>)
    requires |a| == |b|
    ensures Register(Sum(c, d), Xor(a, b)) == Sum(Register(c, a), Register(d, b))
    decreases |a|
  {
    hide Sum, ByteSum, AddByte;
    if a != [] {
      var n := |a| - 1;
      var a1, b1 := a[..n], b[..n];
      RegisterLinear(c, d, a1, b1);
      assert Xor(a, b)[..n] == Xor(a1, b1);
      AddByteLinear(Register(c, a1), Register(d, b1), a[n], b[n]);
    }
  }

  lemma ToCrcLinear(a: bv32, b: bv32)
    ensures ToCrc(Sum(a, b)) == ToCrc(a) ^ ToCrc(b)
  {
  }

  lemma CrcIs(message: seq<bv8>)
    ensures Crc(message) == ToCrc(Register(0, message))
  {
    hide Register, ToCrc;
  }

  /** The CRC of the bytewise XOR of two messages is the XOR of their CRCs. */
  lemma CrcLinear(a: seq<bv8>, b: seq<bv8>)
    requires |a| == |b|
    ensures Crc(Xor(a, b)) == Crc(a) ^ Crc(b)
  {
    assert Sum(0, 0) == 0;
    hide *;
    CrcIs(a);
    CrcIs(b);
    CrcIs(Xor(a, b));
    RegisterLinear(0, 0, a, b);
    ToCrcLinear(Register(0, a), Register(0, b));
  }

  lemma ZeroFits()
    ensures Fits(0)
  {
  }

  // ----- appending the CRC ------------------------------------------------------------

  /** The register's own high byte, fed back, leaves the low byte to be shifted up. */
  lemma FeedHigh(crc: bv32)
    requires Fits(crc)
    ensures AddByte(crc, High(ToCrc(crc))) == (crc & 0xFF) << 8
  {
    MixHigh(crc);
    ShiftLow(crc & 0xFF);
    hide ShiftBits, Mix, High, ToCrc;
    AddByteIs(crc, High(ToCrc(crc)));
  }

  lemma MixHigh(crc: bv32)
    requires Fits(crc)
    ensures Mix(crc, High(ToCrc(crc))) == crc & 0xFF
  {
  }

  lemma ShiftOnce(x: bv32)
    requires x < 0x8000
    ensures ShiftBit(x) == x << 1
  {
  }

  /** Eight shifts of a byte never reach the generator. */
  lemma ShiftLow(x: bv32)
    requires x < 0x100
    ensures ShiftBits(x, 8) == x << 8
  {
    SmallShifts(x);
    hide ShiftBit;
    ShiftOnce(x);
    ShiftOnce(x << 1);
    ShiftOnce(x << 2);
    ShiftOnce(x << 3);
    ShiftOnce(x << 4);
    ShiftOnce(x << 5);
    ShiftOnce(x << 6);
    ShiftOnce(x << 7);
    EightSteps(x);
  }

  lemma SmallShifts(x: bv32)
    requires x < 0x100
    ensures x << 1 < 0x8000 && x << 2 < 0x8000 && x << 3 < 0x8000 && x << 4 < 0x8000
    ensures x << 5 < 0x8000 && x << 6 < 0x8000 && x << 7 < 0x8000 && x < 0x8000
  {
  }

  lemma EightSteps(x: bv32)
    ensures ShiftBits(x, 8) == ShiftBit(ShiftBit(ShiftBit(ShiftBit(ShiftBit(ShiftBit(ShiftBit(ShiftBit(x))))))))
  {
    hide ShiftBit;
    assert ShiftBits(x, 0) == x;
    assert ShiftBits(x, 2) == ShiftBit(ShiftBits(x, 1));
    assert ShiftBits(x, 4) == ShiftBit(ShiftBits(x, 3));
    assert ShiftBits(x, 6) == ShiftBit(ShiftBits(x, 5));
    assert ShiftBits(x, 8) == ShiftBit(ShiftBits(x, 7));
  }

  lemma FeedLow(crc: bv32)
    requires Fits(crc)
    ensures AddByte((crc & 0xFF) << 8, Low(ToCrc(crc))) == 0
  {
    assert Mix((crc & 0xFF) << 8, Low(ToCrc(crc))) == 0;
    ShiftLow(0);
    hide ShiftBits, Mix, Low, ToCrc;
    AddByteIs((crc & 0xFF) << 8, Low(ToCrc(crc)));
  }

  lemma RegisterAppend(c: bv32, m: seq<bv8>, b: bv8)
    ensures Register(c, m + [b]) == AddByte(Register(c, m), b)
  {
    hide AddByte;
    assert (m + [b])[..|m|] == m;
  }

  /** A message followed by its own CRC, high byte first, has CRC zero. */
  lemma AppendedCrcIsZero(message: seq<bv8>)
    ensures Crc(message + [High(Crc(message)), Low(Crc(message))]) == 0
  {
    ZeroFits();
    hide *;
    var register := Register(0, message);
    RegisterFits(0, message);
    CrcIs(message);
    var crc := Crc(message);
    var m1 := message + [High(crc)];
    RegisterAppend(0, message, High(crc));
    RegisterAppend(0, m1, Low(crc));
    assert m1 + [Low(crc)] == message + [High(crc), Low(crc)];
    FeedHigh(register);
    FeedLow(register);
    CrcIs(m1 + [Low(crc)]);
    ZeroCrc();
  }

  lemma ZeroCrc()
    ensures ToCrc(0) == 0
  {
  }
}
