/** The six instruction formats: what the decoder's field extractors read back from a word
    put together by the `build` functions. */
module Formats {
  import opened Compressed
  import opened Isa

  function Reg(r: bv5): bv32 {
    r as bv32
  }

  predicate IsOpcode(x: bv32) {
    x < 0x80
  }

  predicate IsFunct3(x: bv32) {
    x < 8
  }

  /** The signed immediates that fit 12, 13 and 21 bits; branch and jump offsets are even. */
  predicate Fits12(imm: bv32) {
    imm & 0xFFFF_F800 == 0 || imm & 0xFFFF_F800 == 0xFFFF_F800
  }

  predicate Fits13(imm: bv32) {
    imm & 1 == 0 && (imm & 0xFFFF_F000 == 0 || imm & 0xFFFF_F000 == 0xFFFF_F000)
  }

  predicate Fits21(imm: bv32) {
    imm & 1 == 0 && (imm & 0xFFF0_0000 == 0 || imm & 0xFFF0_0000 == 0xFFF0_0000)
  }

  lemma CodesOfR(op: bv32, f3: bv32, f7: bv32, rd: bv5, rs1: bv5, rs2: bv5)
    requires IsOpcode(op) && IsFunct3(f3) && IsOpcode(f7)
    ensures var w := BuildR(op, f3, f7, Reg(rd), Reg(rs1), Reg(rs2));
      Opcode(w) == op && Funct3(w) == f3 && Funct7(w) == f7
  {
  }

  lemma RegistersOfR(op: bv32, f3: bv32, f7: bv32, rd: bv5, rs1: bv5, rs2: bv5)
    requires IsOpcode(op) && IsFunct3(f3) && IsOpcode(f7)
    ensures var w := BuildR(op, f3, f7, Reg(rd), Reg(rs1), Reg(rs2));
      Rd(w) == rd && Rs1(w) == rs1 && Rs2(w) == rs2
  {
  }

  lemma OfR(op: bv32, f3: bv32, f7: bv32, rd: bv5, rs1: bv5, rs2: bv5)
    requires IsOpcode(op) && IsFunct3(f3) && IsOpcode(f7)
    ensures var w := BuildR(op, f3, f7, Reg(rd), Reg(rs1), Reg(rs2));
      Opcode(w) == op && Funct3(w) == f3 && Funct7(w) == f7 && Rd(w) == rd && Rs1(w) == rs1 && Rs2(w) == rs2
  {
    hide *;
    CodesOfR(op, f3, f7, rd, rs1, rs2);
    RegistersOfR(op, f3, f7, rd, rs1, rs2);
  }

  lemma OfI(op: bv32, f3: bv32, rd: bv5, rs1: bv5, imm: bv32)
    requires IsOpcode(op) && IsFunct3(f3)
    ensures var w := BuildI(op, f3, Reg(rd), Reg(rs1), imm);
      Opcode(w) == op && Funct3(w) == f3 && Rd(w) == rd && Rs1(w) == rs1
  {
  }

  lemma ImmOfILow(op: bv32, f3: bv32, rd: bv5, rs1: bv5, imm: bv32)
    requires IsOpcode(op) && IsFunct3(f3) && imm & 0xFFFF_F800 == 0
    ensures ImmI(BuildI(op, f3, Reg(rd), Reg(rs1), imm)) == imm
  {
  }

  lemma ImmOfIHigh(op: bv32, f3: bv32, rd: bv5, rs1: bv5, imm: bv32)
    requires IsOpcode(op) && IsFunct3(f3) && imm & 0xFFFF_F800 == 0xFFFF_F800
    ensures ImmI(BuildI(op, f3, Reg(rd), Reg(rs1), imm)) == imm
  {
  }

  lemma ImmOfI(op: bv32, f3: bv32, rd: bv5, rs1: bv5, imm: bv32)
    requires IsOpcode(op) && IsFunct3(f3) && Fits12(imm)
    ensures ImmI(BuildI(op, f3, Reg(rd), Reg(rs1), imm)) == imm
  {
    hide ImmI, BuildI;
    if imm & 0xFFFF_F800 == 0 {
      ImmOfILow(op, f3, rd, rs1, imm);
    } else {
      ImmOfIHigh(op, f3, rd, rs1, imm);
    }
  }

  lemma OfS(op: bv32, f3: bv32, rs1: bv5, rs2: bv5, imm: bv32)
    requires IsOpcode(op) && IsFunct3(f3)
    ensures var w := BuildS(op, f3, Reg(rs1), Reg(rs2), imm);
      Opcode(w) == op && Funct3(w) == f3 && Rs1(w) == rs1 && Rs2(w) == rs2
  {
  }

  lemma ImmOfSLow(op: bv32, f3: bv32, rs1: bv5, rs2: bv5, imm: bv32)
    requires IsOpcode(op) && IsFunct3(f3) && imm & 0xFFFF_F800 == 0
    ensures ImmS(BuildS(op, f3, Reg(rs1), Reg(rs2), imm)) == imm
  {
  }

  lemma ImmOfSHigh(op: bv32, f3: bv32, rs1: bv5, rs2: bv5, imm: bv32)
    requires IsOpcode(op) && IsFunct3(f3) && imm & 0xFFFF_F800 == 0xFFFF_F800
    ensures ImmS(BuildS(op, f3, Reg(rs1), Reg(rs2), imm)) == imm
  {
  }

  lemma ImmOfS(op: bv32, f3: bv32, rs1: bv5, rs2: bv5, imm: bv32)
    requires IsOpcode(op) && IsFunct3(f3) && Fits12(imm)
    ensures ImmS(BuildS(op, f3, Reg(rs1), Reg(rs2), imm)) == imm
  {
    hide ImmS, BuildS;
    if imm & 0xFFFF_F800 == 0 {
      ImmOfSLow(op, f3, rs1, rs2, imm);
    } else {
      ImmOfSHigh(op, f3, rs1, rs2, imm);
    }
  }

  lemma OpcodeOfB(op: bv32, f3: bv32, rs1: bv5, rs2: bv5, imm: bv32)
    requires IsOpcode(op)
    ensures Opcode(BuildB(op, f3, Reg(rs1), Reg(rs2), imm)) == op
  {
  }

  lemma Funct3OfB(op: bv32, f3: bv32, rs1: bv5, rs2: bv5, imm: bv32)
    requires IsOpcode(op) && IsFunct3(f3)
    ensures Funct3(BuildB(op, f3, Reg(rs1), Reg(rs2), imm)) == f3
  {
  }

  lemma Rs1OfB(op: bv32, f3: bv32, rs1: bv5, rs2: bv5, imm: bv32)
    requires IsOpcode(op) && IsFunct3(f3)
    ensures Rs1(BuildB(op, f3, Reg(rs1), Reg(rs2), imm)) == rs1
  {
  }

  lemma Rs2OfB(op: bv32, f3: bv32, rs1: bv5, rs2: bv5, imm: bv32)
    requires IsOpcode(op) && IsFunct3(f3)
    ensures Rs2(BuildB(op, f3, Reg(rs1), Reg(rs2), imm)) == rs2
  {
  }

  lemma OfB(op: bv32, f3: bv32, rs1: bv5, rs2: bv5, imm: bv32)
    requires IsOpcode(op) && IsFunct3(f3)
    ensures var w := BuildB(op, f3, Reg(rs1), Reg(rs2), imm);
      Opcode(w) == op && Funct3(w) == f3 && Rs1(w) == rs1 && Rs2(w) == rs2
  {
    hide *;
    OpcodeOfB(op, f3, rs1, rs2, imm);
    Funct3OfB(op, f3, rs1, rs2, imm);
    Rs1OfB(op, f3, rs1, rs2, imm);
    Rs2OfB(op, f3, rs1, rs2, imm);
  }

  lemma ImmOfBLow(op: bv32, f3: bv32, rs1: bv5, rs2: bv5, imm: bv32)
    requires IsOpcode(op) && IsFunct3(f3) && imm & 1 == 0 && imm & 0xFFFF_F000 == 0
    ensures ImmB(BuildB(op, f3, Reg(rs1), Reg(rs2), imm)) == imm
  {
  }

  lemma ImmOfBHigh(op: bv32, f3: bv32, rs1: bv5, rs2: bv5, imm: bv32)
    requires IsOpcode(op) && IsFunct3(f3) && imm & 1 == 0 && imm & 0xFFFF_F000 == 0xFFFF_F000
    ensures ImmB(BuildB(op, f3, Reg(rs1), Reg(rs2), imm)) == imm
  {
  }

  lemma ImmOfB(op: bv32, f3: bv32, rs1: bv5, rs2: bv5, imm: bv32)
    requires IsOpcode(op) && IsFunct3(f3) && Fits13(imm)
    ensures ImmB(BuildB(op, f3, Reg(rs1), Reg(rs2), imm)) == imm
  {
    hide ImmB, BuildB;
    if imm & 0xFFFF_F000 == 0 {
      ImmOfBLow(op, f3, rs1, rs2, imm);
    } else {
      ImmOfBHigh(op, f3, rs1, rs2, imm);
    }
  }

  lemma OpcodeOfJ(op: bv32, rd: bv5, imm: bv32)
    requires IsOpcode(op)
    ensures Opcode(BuildJ(op, Reg(rd), imm)) == op
  {
  }

  lemma RdOfJ(op: bv32, rd: bv5, imm: bv32)
    requires IsOpcode(op)
    ensures Rd(BuildJ(op, Reg(rd), imm)) == rd
  {
  }

  lemma OfJ(op: bv32, rd: bv5, imm: bv32)
    requires IsOpcode(op)
    ensures var w := BuildJ(op, Reg(rd), imm); Opcode(w) == op && Rd(w) == rd
  {
    hide *;
    OpcodeOfJ(op, rd, imm);
    RdOfJ(op, rd, imm);
  }

  lemma ImmOfJLow(op: bv32, rd: bv5, imm: bv32)
    requires IsOpcode(op) && imm & 1 == 0 && imm & 0xFFF0_0000 == 0
    ensures ImmJ(BuildJ(op, Reg(rd), imm)) == imm
  {
  }

  lemma ImmOfJHigh(op: bv32, rd: bv5, imm: bv32)
    requires IsOpcode(op) && imm & 1 == 0 && imm & 0xFFF0_0000 == 0xFFF0_0000
    ensures ImmJ(BuildJ(op, Reg(rd), imm)) == imm
  {
  }

  lemma ImmOfJ(op: bv32, rd: bv5, imm: bv32)
    requires IsOpcode(op) && Fits21(imm)
    ensures ImmJ(BuildJ(op, Reg(rd), imm)) == imm
  {
    hide ImmJ, BuildJ;
    if imm & 0xFFF0_0000 == 0 {
      ImmOfJLow(op, rd, imm);
    } else {
      ImmOfJHigh(op, rd, imm);
    }
  }

  lemma OfU(op: bv32, rd: bv5, imm: bv32)
    requires IsOpcode(op)
    ensures var w := BuildU(op, Reg(rd), imm); Opcode(w) == op && Rd(w) == rd && ImmU(w) == imm & 0xFFFF_F000
  {
  }
}
