/** Results of the register and immediate instructions. Products and quotients are taken
    on the numbers the words stand for. */
module Alu {
  import opened Words
  import opened Isa

  const TWO_64: nat := 0x1_0000_0000_0000_0000

  /** Division and remainder of C++: the quotient is truncated toward zero. */
  function Quotient(a: int, b: int): int
    requires b != 0
  {
    if a >= 0 then (if b > 0 then a / b else -(a / -b))
    else (if b > 0 then -(-a / b) else -a / -b)
  }

  function Remainder(a: int, b: int): int
    requires b != 0
  {
    a - b * Quotient(a, b)
  }

  /** Bits 63..32 of a product taken modulo 2^64. */
  function HighWord(product: int): bv32 {
    FromNat(product % TWO_64 / TWO_32)
  }

  function Mul(a: bv32, b: bv32): bv32 {
    Wrap(ToNat(a) * ToNat(b))
  }

  function Mulh(a: bv32, b: bv32): bv32 {
    HighWord(ToInt(a) * ToInt(b))
  }

  function Mulhsu(a: bv32, b: bv32): bv32 {
    HighWord(ToInt(a) * ToNat(b))
  }

  function Mulhu(a: bv32, b: bv32): bv32 {
    HighWord(ToNat(a) * ToNat(b))
  }

  function Div(a: bv32, b: bv32): bv32 {
    if ToInt(b) == 0 then 0xFFFF_FFFF
    else if ToInt(a) == -0x8000_0000 && ToInt(b) == -1 then a
    else Wrap(Quotient(ToInt(a), ToInt(b)))
  }

  function Rem(a: bv32, b: bv32): bv32 {
    if ToInt(b) == 0 then a
    else if ToInt(a) == -0x8000_0000 && ToInt(b) == -1 then 0
    else Wrap(Remainder(ToInt(a), ToInt(b)))
  }

  function Divu(a: bv32, b: bv32): bv32 {
    if ToNat(b) == 0 then 0xFFFF_FFFF else Wrap(ToNat(a) / ToNat(b))
  }

  function Remu(a: bv32, b: bv32): bv32 {
    if ToNat(b) == 0 then a else Wrap(ToNat(a) % ToNat(b))
  }

  function Flag(b: bool): bv32 {
    if b then 1 else 0
  }

  function Amount(b: bv32): bv5 {
    (b & 0x1F) as bv5
  }

  function ShiftLeft(a: bv32, n: bv5): bv32 {
    a << n
  }

  function ShiftRight(a: bv32, n: bv5): bv32 {
    a >> n
  }

  function ArithmeticShift(a: bv32, n: bv5): bv32 {
    if a & 0x8000_0000 != 0 then !ShiftRight(!a, n) else ShiftRight(a, n)
  }

  /** The shift amount register shifts take from rs2: six bits, not five. */
  function ShiftField(b: bv32): bv32 {
    GetBits(b, 0, 5)
  }

  predicate IsShift(op: ROp) {
    op.SLL? || op.SRL? || op.SRA?
  }

  /** A C++ shift of a 32-bit value by 32 or more has no defined result. */
  predicate Defined(op: ROp, b: bv32) {
    IsShift(op) ==> ShiftField(b) < 32
  }

  /** The value written to rd; for a shift, when it is Defined. */
  function RegisterResult(op: ROp, a: bv32, b: bv32): bv32 {
    match op
    case ADD => b + a
    case SUB => a - b
    case SLL => ShiftLeft(a, Amount(b))
    case SLT => Flag(ToInt(a) < ToInt(b))
    case SLTU => Flag(a < b)
    case XOR => a ^ b
    case SRL => ShiftRight(a, Amount(b))
    case SRA => ArithmeticShift(a, Amount(b))
    case OR => a | b
    case AND => a & b
    case MUL => Mul(a, b)
    case MULH => Mulh(a, b)
    case MULHSU => Mulhsu(a, b)
    case MULHU => Mulhu(a, b)
    case DIV => Div(a, b)
    case DIVU => Divu(a, b)
    case REM => Rem(a, b)
    case REMU => Remu(a, b)
  }

  function ImmediateResult(op: IOp, a: bv32, imm: bv32): bv32 {
    match op
    case ADDI => a + imm
    case SLTI => Flag(ToInt(a) < ToInt(imm))
    case SLTIU => Flag(a < imm)
    case XORI => a ^ imm
    case ORI => a | imm
    case ANDI => a & imm
    case SLLI => ShiftLeft(a, Amount(imm))
    case SRLI => ShiftRight(a, Amount(imm))
    case SRAI => ArithmeticShift(a, Amount(imm))
  }

  function AmoResult(op: AmoOp, current: bv32, b: bv32): bv32 {
    match op
    case AMOADD => current + b
    case AMOSWAP => b
    case AMOXOR => current ^ b
    case AMOOR => current | b
    case AMOAND => current & b
    case AMOMIN => if ToInt(b) < ToInt(current) then b else current
    case AMOMAX => if ToInt(current) < ToInt(b) then b else current
    case AMOMINU => if b < current then b else current
    case AMOMAXU => if current < b then b else current
  }

  function BranchTaken(op: BOp, a: bv32, b: bv32): bool {
    match op
    case BEQ => a == b
    case BNE => a != b
    case BLT => ToInt(a) < ToInt(b)
    case BGE => ToInt(a) >= ToInt(b)
    case BLTU => a < b
    case BGEU => a >= b
  }

  function SignExtend8(b: bv8): bv32 {
    if b & 0x80 != 0 then (b as bv32) | 0xFFFF_FF00 else b as bv32
  }

  function SignExtend16(h: bv32): bv32 {
    if h & 0x8000 != 0 then h | 0xFFFF_0000 else h
  }
}
