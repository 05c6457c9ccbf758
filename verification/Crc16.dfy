/** The CRC that protects SD-card data blocks (generator x^16 + x^12 + x^5 + 1). */
module Crc16 {

  /** One shift of the register, as the inner loop does it. */
  function ShiftBit(crc: bv32): bv32 {
    var shifted := crc << 1;
    if shifted & 0x1_0000 != 0 then shifted ^ 0x1_1021 else shifted
  }

  function ShiftBits(crc: bv32, n: nat): bv32 {
    if n == 0 then crc else ShiftBit(ShiftBits(crc, n - 1))
  }

  /** A message byte enters the register at its upper end. */
  function Mix(crc: bv32, b: bv8): bv32 {
    crc ^ ((b as bv32) << 8)
  }

  /** The register after one more message byte. */
  function AddByte(crc: bv32, b: bv8): bv32 {
    ShiftBits(Mix(crc, b), 8)
  }

  /** The register after a message, starting from `crc`. */
  function Register(crc: bv32, message: seq<bv8>): bv32 {
    if message == [] then crc
    else AddByte(Register(crc, message[..|message| - 1]), message[|message| - 1])
  }

  function ToCrc(crc: bv32): bv16 {
    (crc & 0xFFFF) as bv16
  }

  function Crc(message: seq<bv8>): bv16 {
    ToCrc(Register(0, message))
  }

  function High(crc: bv16): bv8 {
    (crc >> 8) as bv8
  }

  function Low(crc: bv16): bv8 {
    (crc & 0xFF) as bv8
  }

  lemma RegisterStep(message: seq<bv8>, b: bv8)
    ensures Register(0, message + [b]) == ShiftBits(Mix(Register(0, message), b), 8)
  {
    hide ShiftBits, Mix;
    assert (message + [b])[..|message|] == message;
  }

  lemma ShiftsStep(crc: bv32, n: nat)
    ensures ShiftBits(crc, n + 1) == ShiftBit(ShiftBits(crc, n)) && ShiftBits(crc, 0) == crc
  {
    hide ShiftBit;
  }

  lemma ShiftOne(crc: bv32, shifted: bv32)
    requires shifted == crc << 1
    ensures ShiftBit(crc) == if shifted & 0x1_0000 != 0 then shifted ^ 0x1_1021 else shifted
  {
  }

  /** The inner loop of `getCRC16`: eight shifts. */
  method ShiftByte(mixed: bv32) returns (crc: bv32)
    ensures crc == ShiftBits(mixed, 8)
  {
    hide ShiftBits, ShiftBit;
    crc := mixed;
    ShiftsStep(mixed, 0);
    for j := 0 to 8
      invariant crc == ShiftBits(mixed, j)
    {
      ghost var last := crc;
      crc := crc << 1;
      ShiftOne(last, crc);
      ShiftsStep(mixed, j);
      if crc & 0x1_0000 != 0 {
        crc := crc ^ 0x1_1021;
      }
    }
  }

  /** `getCRC16`: the CRC of `length` bytes of `data` from `start`. */
  method GetCrc16(data: array<bv8>, start: nat, length: nat) returns (crc16: bv16)
    requires start + length <= data.Length
    ensures crc16 == Crc(data[start..start + length])
  {
    assert Register(0, []) == 0;
    hide Register, ShiftBits, Mix, ToCrc;
    var crc: bv32 := 0;
    for i := 0 to length
      invariant crc == Register(0, data[start..start + i])
    {
      RegisterStep(data[start..start + i], data[start + i]);
      assert data[start..start + i + 1] == data[start..start + i] + [data[start + i]];
      crc := ShiftByte(Mix(crc, data[start + i]));
    }
    crc16 := ToCrc(crc);
  }
}
