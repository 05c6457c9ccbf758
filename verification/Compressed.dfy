/** The expander from 16-bit to 32-bit instructions. */
module Compressed {
  import opened Words

  function SignExtend(value: bv32, bits: bv6): bv32
    requires 0 < bits < 32
  {
    if value & (1 << (bits - 1)) != 0 then value | (0xFFFF_FFFF << bits) else value
  }

  function BuildR(opcode: bv32, funct3: bv32, funct7: bv32, rd: bv32, rs1: bv32, rs2: bv32): bv32 {
    (funct7 << 25) | (rs2 << 20) | (rs1 << 15) | (funct3 << 12) | (rd << 7) | opcode
  }

  function BuildI(opcode: bv32, funct3: bv32, rd: bv32, rs1: bv32, imm: bv32): bv32 {
    ((imm & 0xFFF) << 20) | (rs1 << 15) | (funct3 << 12) | (rd << 7) | opcode
  }

  function BuildS(opcode: bv32, funct3: bv32, rs1: bv32, rs2: bv32, imm: bv32): bv32 {
    (((imm >> 5) & 0x7F) << 25) | (rs2 << 20) | (rs1 << 15) | (funct3 << 12) | ((imm & 0x1F) << 7) | opcode
  }

  function BuildB(opcode: bv32, funct3: bv32, rs1: bv32, rs2: bv32, imm: bv32): bv32 {
    (((imm >> 12) & 0x1) << 31) | (((imm >> 5) & 0x3F) << 25) | (rs2 << 20) | (rs1 << 15) | (funct3 << 12)
    | (((imm >> 1) & 0xF) << 8) | (((imm >> 11) & 0x1) << 7) | opcode
  }

  function BuildJ(opcode: bv32, rd: bv32, imm: bv32): bv32 {
    (((imm >> 20) & 0x1) << 31) | (((imm >> 1) & 0x3FF) << 21) | (((imm >> 11) & 0x1) << 20)
    | (((imm >> 12) & 0xFF) << 12) | (rd << 7) | opcode
  }

  function BuildU(opcode: bv32, rd: bv32, imm: bv32): bv32 {
    (imm & 0xFFFF_F000) | (rd << 7) | opcode
  }

  /** A three-bit register field names x8..x15. */
  function RvcRegister(inst: bv32, lo: bv6): bv32
    requires lo < 29
  {
    8 + GetBits(inst, lo, lo + 2)
  }

  /** The immediate of C.JAL and C.J. */
  function JumpImm(inst: bv32): bv32 {
    SignExtend((GetBits(inst, 12, 12) << 11) | (GetBits(inst, 8, 8) << 10) | (GetBits(inst, 9, 10) << 8)
      | (GetBits(inst, 6, 6) << 7) | (GetBits(inst, 7, 7) << 6) | (GetBits(inst, 2, 2) << 5)
      | (GetBits(inst, 11, 11) << 4) | (GetBits(inst, 3, 5) << 1), 12)
  }

  /** The immediate of C.BEQZ and C.BNEZ. */
  function BranchImm(inst: bv32): bv32 {
    SignExtend((GetBits(inst, 12, 12) << 8) | (GetBits(inst, 5, 6) << 6) | (GetBits(inst, 2, 2) << 5)
      | (GetBits(inst, 10, 11) << 3) | (GetBits(inst, 3, 4) << 1), 9)
  }

  /** The six-bit field of C.ADDI, C.LI, C.LUI and the shifts. */
  function Imm6(inst: bv32): bv32 {
    (GetBits(inst, 12, 12) << 5) | GetBits(inst, 2, 6)
  }

  /** The offset of C.LW and C.SW. */
  function WordOffset(inst: bv32): bv32 {
    (GetBits(inst, 5, 5) << 6) | (GetBits(inst, 10, 12) << 3) | (GetBits(inst, 6, 6) << 2)
  }

  function Quadrant0(inst: bv32): bv32 {
    var funct3 := GetBits(inst, 13, 15);
    if funct3 == 0 then
      var imm := (GetBits(inst, 7, 10) << 6) | (GetBits(inst, 11, 12) << 4) | (GetBits(inst, 5, 5) << 3) | (GetBits(inst, 6, 6) << 2);
      if imm == 0 then 0 else BuildI(0x13, 0, RvcRegister(inst, 2), 2, imm)
    else if funct3 == 2 then BuildI(0x03, 2, RvcRegister(inst, 2), RvcRegister(inst, 7), WordOffset(inst))
    else if funct3 == 6 then BuildS(0x23, 2, RvcRegister(inst, 7), RvcRegister(inst, 2), WordOffset(inst))
    else 0
  }

  function MiscAlu(inst: bv32): bv32 {
    var funct2, rd := GetBits(inst, 10, 11), RvcRegister(inst, 7);
    if funct2 == 3 then
      var rs2, sub := RvcRegister(inst, 2), GetBits(inst, 5, 6);
      if sub == 0 then BuildR(0x33, 0, 0x20, rd, rd, rs2)
      else if sub == 1 then BuildR(0x33, 4, 0, rd, rd, rs2)
      else if sub == 2 then BuildR(0x33, 6, 0, rd, rd, rs2)
      else BuildR(0x33, 7, 0, rd, rd, rs2)
    else if funct2 == 0 then BuildI(0x13, 5, rd, rd, Imm6(inst))
    else if funct2 == 1 then BuildI(0x13, 5, rd, rd, Imm6(inst) | 0x400)
    else BuildI(0x13, 7, rd, rd, SignExtend(Imm6(inst), 6))
  }

  function StackOrUpper(inst: bv32): bv32 {
    var rd, imm := GetBits(inst, 7, 11), SignExtend(Imm6(inst), 6);
    if rd == 2 then
      var imm16 := SignExtend((GetBits(inst, 12, 12) << 9) | (GetBits(inst, 3, 4) << 7) | (GetBits(inst, 5, 5) << 6)
        | (GetBits(inst, 2, 2) << 5) | (GetBits(inst, 6, 6) << 4), 10);
      if imm16 != 0 then BuildI(0x13, 0, 2, 2, imm16) else 0
    else if rd != 0 && imm != 0 then BuildU(0x37, rd, imm << 12)
    else 0
  }

  function Quadrant1(inst: bv32): bv32 {
    var funct3 := GetBits(inst, 13, 15);
    var rd, imm := GetBits(inst, 7, 11), SignExtend(Imm6(inst), 6);
    if funct3 == 0 then BuildI(0x13, 0, rd, rd, imm)
    else if funct3 == 1 then BuildJ(0x6F, 1, JumpImm(inst))
    else if funct3 == 2 then (if rd == 0 then 0 else BuildI(0x13, 0, rd, 0, imm))
    else if funct3 == 3 then StackOrUpper(inst)
    else if funct3 == 4 then MiscAlu(inst)
    else if funct3 == 5 then BuildJ(0x6F, 0, JumpImm(inst))
    else BuildB(0x63, if funct3 == 6 then 0 else 1, RvcRegister(inst, 7), 0, BranchImm(inst))
  }

  function JumpMoveAdd(inst: bv32): bv32 {
    var rs1, rs2 := GetBits(inst, 7, 11), GetBits(inst, 2, 6);
    if GetBits(inst, 12, 12) == 0 then
      if rs2 == 0 && rs1 != 0 then BuildI(0x67, 0, 0, rs1, 0)
      else if rs2 != 0 && rs1 != 0 then BuildR(0x33, 0, 0, rs1, 0, rs2)
      else 0
    else if rs1 == 0 && rs2 == 0 then 0x0010_0073
    else if rs2 == 0 && rs1 != 0 then BuildI(0x67, 0, 1, rs1, 0)
    else if rs2 != 0 && rs1 != 0 then BuildR(0x33, 0, 0, rs1, rs1, rs2)
    else 0
  }

  function Quadrant2(inst: bv32): bv32 {
    var funct3, rd := GetBits(inst, 13, 15), GetBits(inst, 7, 11);
    if funct3 == 0 then
      if rd != 0 && Imm6(inst) != 0 then BuildI(0x13, 1, rd, rd, Imm6(inst)) else 0
    else if funct3 == 2 then
      if rd != 0 then
        BuildI(0x03, 2, rd, 2, (GetBits(inst, 2, 3) << 6) | (GetBits(inst, 12, 12) << 5) | (GetBits(inst, 4, 6) << 2))
      else 0
    else if funct3 == 4 then JumpMoveAdd(inst)
    else if funct3 == 6 then
      BuildS(0x23, 2, 2, GetBits(inst, 2, 6), (GetBits(inst, 7, 8) << 6) | (GetBits(inst, 9, 12) << 2))
    else 0
  }

  function Quadrants(inst: bv32): bv32 {
    var op := GetBits(inst, 0, 1);
    if op == 0 then Quadrant0(inst)
    else if op == 1 then Quadrant1(inst)
    else if op == 2 then Quadrant2(inst)
    else 0
  }

  /** `decompress`; 0 stands for a rejected halfword. */
  function Decompress(half: bv16): bv32 {
    Quadrants(half as bv32)
  }
}
