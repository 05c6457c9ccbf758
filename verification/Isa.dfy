/** The instructions the emulator knows, and the decoder that picks one from a word. */
module Isa {
  import opened Words

  datatype ROp = ADD | SUB | SLL | SLT | SLTU | XOR | SRL | SRA | OR | AND
               | MUL | MULH | MULHSU | MULHU | DIV | DIVU | REM | REMU
  datatype AmoOp = AMOADD | AMOSWAP | AMOXOR | AMOOR | AMOAND | AMOMIN | AMOMAX | AMOMINU | AMOMAXU
  datatype BOp = BEQ | BNE | BLT | BGE | BLTU | BGEU
  datatype IOp = ADDI | SLTI | SLTIU | XORI | ORI | ANDI | SLLI | SRLI | SRAI
  datatype LOp = LB | LH | LW | LBU | LHU
  datatype SOp = SB | SH | SW
  datatype COp = CSRRW | CSRRS | CSRRC | CSRRWI | CSRRSI | CSRRCI

  /** A decoded instruction. Immediates are sign-extended words. */
  datatype Instr =
    | Register(rop: ROp, rd: bv5, rs1: bv5, rs2: bv5)
    | LoadReserved(rd: bv5, rs1: bv5)
    | StoreConditional(rd: bv5, rs1: bv5, rs2: bv5)
    | Amo(amo: AmoOp, rd: bv5, rs1: bv5, rs2: bv5)
    | Branch(bop: BOp, rs1: bv5, rs2: bv5, imm: bv32)
    | Immediate(iop: IOp, rd: bv5, rs1: bv5, imm: bv32)
    | Load(lop: LOp, rd: bv5, rs1: bv5, imm: bv32)
    | Store(sop: SOp, rs1: bv5, rs2: bv5, imm: bv32)
    | Jal(rd: bv5, imm: bv32)
    | Jalr(rd: bv5, rs1: bv5, imm: bv32)
    | Lui(rd: bv5, imm: bv32)
    | Auipc(rd: bv5, imm: bv32)
    | CsrAccess(cop: COp, rd: bv5, rs1: bv5, csr: bv12)
    | Fence
    | Ecall
    | Ebreak
    | Mret
    | Sret
    | Wfi
    | SfenceVma
    | Illegal

  // ----- fields ------------------------------------------------------------

  function Opcode(w: bv32): bv32 {
    GetBits(w, 0, 6)
  }

  function Funct3(w: bv32): bv32 {
    GetBits(w, 12, 14)
  }

  function Funct7(w: bv32): bv32 {
    GetBits(w, 25, 31)
  }

  function Rd(w: bv32): bv5 {
    GetBits(w, 7, 11) as bv5
  }

  function Rs1(w: bv32): bv5 {
    GetBits(w, 15, 19) as bv5
  }

  function Rs2(w: bv32): bv5 {
    GetBits(w, 20, 24) as bv5
  }

  function ImmI(w: bv32): bv32 {
    var imm := GetBits(w, 20, 31);
    if GetBits(imm, 11, 11) == 1 then imm | 0xFFFF_F000 else imm & 0xFFF
  }

  function ImmS(w: bv32): bv32 {
    var imm := (GetBits(w, 25, 31) << 5) | GetBits(w, 7, 11);
    if GetBits(imm, 11, 11) == 1 then imm | 0xFFFF_F000 else imm & 0xFFF
  }

  function ImmB(w: bv32): bv32 {
    var imm := (GetBits(w, 31, 31) << 12) | (GetBits(w, 7, 7) << 11) | (GetBits(w, 25, 30) << 5) | (GetBits(w, 8, 11) << 1);
    if GetBits(imm, 12, 12) == 1 then imm | 0xFFFF_F000 else imm & 0xFFF
  }

  function ImmJ(w: bv32): bv32 {
    var imm := (GetBits(w, 31, 31) << 20) | (GetBits(w, 12, 19) << 12) | (GetBits(w, 20, 20) << 11) | (GetBits(w, 21, 30) << 1);
    if GetBits(imm, 20, 20) == 1 then imm | 0xFFF0_0000 else imm & 0x001F_FFFF
  }

  function ImmU(w: bv32): bv32 {
    w & 0xFFFF_F000
  }

  // ----- dispatch ----------------------------------------------------------

  function DecodeRegister(w: bv32): Instr {
    var f3, f7, rd, rs1, rs2 := Funct3(w), Funct7(w), Rd(w), Rs1(w), Rs2(w);
    if f7 == 0x00 then
      if f3 == 0 then Register(ADD, rd, rs1, rs2)
      else if f3 == 1 then Register(SLL, rd, rs1, rs2)
      else if f3 == 2 then Register(SLT, rd, rs1, rs2)
      else if f3 == 3 then Register(SLTU, rd, rs1, rs2)
      else if f3 == 4 then Register(XOR, rd, rs1, rs2)
      else if f3 == 5 then Register(SRL, rd, rs1, rs2)
      else if f3 == 6 then Register(OR, rd, rs1, rs2)
      else Register(AND, rd, rs1, rs2)
    else if f7 == 0x20 then
      if f3 == 0 then Register(SUB, rd, rs1, rs2)
      else if f3 == 5 then Register(SRA, rd, rs1, rs2)
      else Illegal
    else if f7 == 0x01 then
      if f3 == 0 then Register(MUL, rd, rs1, rs2)
      else if f3 == 1 then Register(MULH, rd, rs1, rs2)
      else if f3 == 2 then Register(MULHSU, rd, rs1, rs2)
      else if f3 == 3 then Register(MULHU, rd, rs1, rs2)
      else if f3 == 4 then Register(DIV, rd, rs1, rs2)
      else if f3 == 5 then Register(DIVU, rd, rs1, rs2)
      else if f3 == 6 then Register(REM, rd, rs1, rs2)
      else Register(REMU, rd, rs1, rs2)
    else Illegal
  }

  /** The operation is the top five bits; the aq and rl bits are ignored. */
  function DecodeAtomic(w: bv32): Instr {
    var op, rd, rs1, rs2 := Funct7(w) >> 2, Rd(w), Rs1(w), Rs2(w);
    if Funct3(w) != 2 then Illegal
    else if op == 0x02 then LoadReserved(rd, rs1)
    else if op == 0x03 then StoreConditional(rd, rs1, rs2)
    else if op == 0x00 then Amo(AMOADD, rd, rs1, rs2)
    else if op == 0x01 then Amo(AMOSWAP, rd, rs1, rs2)
    else if op == 0x04 then Amo(AMOXOR, rd, rs1, rs2)
    else if op == 0x08 then Amo(AMOOR, rd, rs1, rs2)
    else if op == 0x0C then Amo(AMOAND, rd, rs1, rs2)
    else if op == 0x10 then Amo(AMOMIN, rd, rs1, rs2)
    else if op == 0x14 then Amo(AMOMAX, rd, rs1, rs2)
    else if op == 0x18 then Amo(AMOMINU, rd, rs1, rs2)
    else if op == 0x1C then Amo(AMOMAXU, rd, rs1, rs2)
    else Illegal
  }

  function DecodeBranch(w: bv32): Instr {
    var f3, rs1, rs2, imm := Funct3(w), Rs1(w), Rs2(w), ImmB(w);
    if f3 == 0 then Branch(BEQ, rs1, rs2, imm)
    else if f3 == 1 then Branch(BNE, rs1, rs2, imm)
    else if f3 == 4 then Branch(BLT, rs1, rs2, imm)
    else if f3 == 5 then Branch(BGE, rs1, rs2, imm)
    else if f3 == 6 then Branch(BLTU, rs1, rs2, imm)
    else if f3 == 7 then Branch(BGEU, rs1, rs2, imm)
    else Illegal
  }

  /** Shifts are told apart by bit 30 alone. */
  function DecodeImmediate(w: bv32): Instr {
    var f3, rd, rs1, imm := Funct3(w), Rd(w), Rs1(w), ImmI(w);
    var special := GetBits(w, 30, 30);
    if f3 == 0 then Immediate(ADDI, rd, rs1, imm)
    else if f3 == 2 then Immediate(SLTI, rd, rs1, imm)
    else if f3 == 3 then Immediate(SLTIU, rd, rs1, imm)
    else if f3 == 4 then Immediate(XORI, rd, rs1, imm)
    else if f3 == 6 then Immediate(ORI, rd, rs1, imm)
    else if f3 == 7 then Immediate(ANDI, rd, rs1, imm)
    else if f3 == 1 && special == 0 then Immediate(SLLI, rd, rs1, GetBits(imm, 0, 4))
    else if f3 == 5 && special == 0 then Immediate(SRLI, rd, rs1, GetBits(imm, 0, 4))
    else if f3 == 5 && special == 1 then Immediate(SRAI, rd, rs1, GetBits(imm, 0, 4))
    else Illegal
  }

  function DecodeLoad(w: bv32): Instr {
    var f3, rd, rs1, imm := Funct3(w), Rd(w), Rs1(w), ImmI(w);
    if f3 == 0 then Load(LB, rd, rs1, imm)
    else if f3 == 1 then Load(LH, rd, rs1, imm)
    else if f3 == 2 then Load(LW, rd, rs1, imm)
    else if f3 == 4 then Load(LBU, rd, rs1, imm)
    else if f3 == 5 then Load(LHU, rd, rs1, imm)
    else Illegal
  }

  function DecodeStore(w: bv32): Instr {
    var f3, rs1, rs2, imm := Funct3(w), Rs1(w), Rs2(w), ImmS(w);
    if f3 == 0 then Store(SB, rs1, rs2, imm)
    else if f3 == 1 then Store(SH, rs1, rs2, imm)
    else if f3 == 2 then Store(SW, rs1, rs2, imm)
    else Illegal
  }

  function DecodeSystem(w: bv32): Instr {
    var f3, f12, rd, rs1 := Funct3(w), GetBits(w, 20, 31), Rd(w), Rs1(w);
    var csr := (ImmI(w) & 0xFFF) as bv12;
    if f3 == 0 then
      if Funct7(w) == 0x09 then SfenceVma
      else if f12 == 0x000 then Ecall
      else if f12 == 0x001 then Ebreak
      else if f12 == 0x302 then Mret
      else if f12 == 0x102 then Sret
      else if f12 == 0x105 then Wfi
      else Illegal
    else if f3 == 1 then CsrAccess(CSRRW, rd, rs1, csr)
    else if f3 == 2 then CsrAccess(CSRRS, rd, rs1, csr)
    else if f3 == 3 then CsrAccess(CSRRC, rd, rs1, csr)
    else if f3 == 5 then CsrAccess(CSRRWI, rd, rs1, csr)
    else if f3 == 6 then CsrAccess(CSRRSI, rd, rs1, csr)
    else if f3 == 7 then CsrAccess(CSRRCI, rd, rs1, csr)
    else Illegal
  }

  function DecodeFence(w: bv32): Instr {
    if Funct3(w) == 0 || Funct3(w) == 1 then Fence else Illegal
  }

  /** The switch on the opcode, and below it the switches of each format. */
  function Decode(w: bv32): Instr {
    var opcode := Opcode(w);
    if opcode == 0x33 then DecodeRegister(w)
    else if opcode == 0x2F then DecodeAtomic(w)
    else if opcode == 0x63 then DecodeBranch(w)
    else if opcode == 0x13 then DecodeImmediate(w)
    else if opcode == 0x03 then DecodeLoad(w)
    else if opcode == 0x67 then Jalr(Rd(w), Rs1(w), ImmI(w))
    else if opcode == 0x0F then DecodeFence(w)
    else if opcode == 0x6F then Jal(Rd(w), ImmJ(w))
    else if opcode == 0x23 then DecodeStore(w)
    else if opcode == 0x73 then DecodeSystem(w)
    else if opcode == 0x37 then Lui(Rd(w), ImmU(w))
    else if opcode == 0x17 then Auipc(Rd(w), ImmU(w))
    else Illegal
  }
}
