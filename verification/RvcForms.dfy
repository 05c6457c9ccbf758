/** The compressed instructions of chapter 16 of the RISC-V Instruction Set Manual, Volume I
    (20191213): their 16-bit layout, and what the expander makes of it. */
module RvcForms {
  import opened Compressed
  import opened Formats
  import opened Interrupts
  import opened Isa
  import opened Machine
  import opened Words
  import Assembler
  import Bus
  import Mmio
  import Ranges

  /** A form with its operands; `bv3` registers name x8..x15, immediates are the signed or
      zero-extended values. */
  datatype Rvc =
    | CAddi4spn(rdp: bv3, imm: bv32)
    | CLw(rdp: bv3, rs1p: bv3, imm: bv32)
    | CSw(rs1p: bv3, rs2p: bv3, imm: bv32)
    | CAddi(rd: bv5, imm: bv32)
    | CJal(imm: bv32)
    | CLi(rd: bv5, imm: bv32)
    | CAddi16sp(imm: bv32)
    | CLui(rd: bv5, imm: bv32)
    | CSrli(rdp: bv3, shamt: bv5)
    | CSrai(rdp: bv3, shamt: bv5)
    | CAndi(rdp: bv3, imm: bv32)
    | CSub(rdp: bv3, rs2p: bv3)
    | CXor(rdp: bv3, rs2p: bv3)
    | COr(rdp: bv3, rs2p: bv3)
    | CAnd(rdp: bv3, rs2p: bv3)
    | CJ(imm: bv32)
    | CBeqz(rs1p: bv3, imm: bv32)
    | CBnez(rs1p: bv3, imm: bv32)
    | CSlli(rd: bv5, shamt: bv5)
    | CLwsp(rd: bv5, imm: bv32)
    | CJr(rs1: bv5)
    | CMv(rd: bv5, rs2: bv5)
    | CEbreak
    | CJalr(rs1: bv5)
    | CAdd(rd: bv5, rs2: bv5)
    | CSwsp(rs2: bv5, imm: bv32)

  function Prime(r: bv3): bv5 {
    8 + (r as bv5)
  }

  function Reg3(r: bv3): bv32 {
    r as bv32
  }

  /** Signed values of 6, 9, 10 and 12 bits. */
  predicate Signed6(imm: bv32) {
    imm & 0xFFFF_FFE0 == 0 || imm & 0xFFFF_FFE0 == 0xFFFF_FFE0
  }

  predicate Signed9(imm: bv32) {
    imm & 0xFFFF_FF00 == 0 || imm & 0xFFFF_FF00 == 0xFFFF_FF00
  }

  predicate Signed10(imm: bv32) {
    imm & 0xFFFF_FE00 == 0 || imm & 0xFFFF_FE00 == 0xFFFF_FE00
  }

  predicate Signed12(imm: bv32) {
    imm & 0xFFFF_F800 == 0 || imm & 0xFFFF_F800 == 0xFFFF_F800
  }

  /** Only bits of `mask` are set. */
  predicate Within(imm: bv32, mask: bv32) {
    imm & !mask == 0
  }

  predicate Even(imm: bv32) {
    imm & 1 == 0
  }

  /** The operands each form admits: reserved encodings and hints with destination x0 excluded. */
  predicate Legal(c: Rvc) {
    match c
    case CAddi4spn(_, imm) => Within(imm, 0x3FC) && imm != 0
    case CLw(_, _, imm) => Within(imm, 0x7C)
    case CSw(_, _, imm) => Within(imm, 0x7C)
    case CAddi(_, imm) => Signed6(imm)
    case CJal(imm) => Signed12(imm) && Even(imm)
    case CLi(rd, imm) => rd != 0 && Signed6(imm)
    case CAddi16sp(imm) => imm != 0 && imm & 0xF == 0 && Signed10(imm)
    case CLui(rd, imm) => rd != 0 && rd != 2 && imm != 0 && Signed6(imm)
    case CAndi(_, imm) => Signed6(imm)
    case CJ(imm) => Signed12(imm) && Even(imm)
    case CBeqz(_, imm) => Signed9(imm) && Even(imm)
    case CBnez(_, imm) => Signed9(imm) && Even(imm)
    case CSlli(rd, shamt) => rd != 0 && shamt != 0
    case CLwsp(rd, imm) => rd != 0 && Within(imm, 0xFC)
    case CJr(rs1) => rs1 != 0
    case CMv(rd, rs2) => rd != 0 && rs2 != 0
    case CJalr(rs1) => rs1 != 0
    case CAdd(rd, rs2) => rd != 0 && rs2 != 0
    case CSwsp(_, imm) => Within(imm, 0xFC)
    case _ => true
  }

  // ----- the layout ---------------------------------------------------------------

  /** Bits [lo..hi] of an immediate. */
  function Field(imm: bv32, lo: bv6, hi: bv6): bv32
    requires lo <= hi < 32
  {
    GetBits(imm, lo, hi)
  }

  /** CI: funct3, imm[5], rd, imm[4:0], quadrant. */
  function LayoutCI(funct3: bv32, rd: bv5, imm: bv32, op: bv32): bv32 {
    (funct3 << 13) | (Field(imm, 5, 5) << 12) | (Reg(rd) << 7) | (Field(imm, 0, 4) << 2) | op
  }

  /** CJ: imm[11|4|9:8|10|6|7|3:1|5]. */
  function LayoutCJ(funct3: bv32, imm: bv32): bv32 {
    (funct3 << 13) | (Field(imm, 11, 11) << 12) | (Field(imm, 4, 4) << 11) | (Field(imm, 8, 9) << 9) | (Field(imm, 10, 10) << 8)
    | (Field(imm, 6, 6) << 7) | (Field(imm, 7, 7) << 6) | (Field(imm, 1, 3) << 3) | (Field(imm, 5, 5) << 2) | 1
  }

  /** CB: imm[8|4:3], rs1', imm[7:6|2:1|5]. */
  function LayoutCB(funct3: bv32, rs1p: bv3, imm: bv32): bv32 {
    (funct3 << 13) | (Field(imm, 8, 8) << 12) | (Field(imm, 3, 4) << 10) | (Reg3(rs1p) << 7)
    | (Field(imm, 6, 7) << 5) | (Field(imm, 1, 2) << 3) | (Field(imm, 5, 5) << 2) | 1
  }

  /** CL and CS: imm[5:3], rs1', imm[2|6], rd' or rs2'. */
  function LayoutCL(funct3: bv32, rs1p: bv3, rp: bv3, imm: bv32): bv32 {
    (funct3 << 13) | (Field(imm, 3, 5) << 10) | (Reg3(rs1p) << 7) | (Field(imm, 2, 2) << 6) | (Field(imm, 6, 6) << 5) | (Reg3(rp) << 2)
  }

  /** C.SRLI, C.SRAI and C.ANDI. */
  function LayoutShift(funct2: bv32, rdp: bv3, imm: bv32): bv32 {
    (4 << 13) | (Field(imm, 5, 5) << 12) | (funct2 << 10) | (Reg3(rdp) << 7) | (Field(imm, 0, 4) << 2) | 1
  }

  /** CA. */
  function LayoutCA(sub: bv32, rdp: bv3, rs2p: bv3): bv32 {
    (4 << 13) | (3 << 10) | (Reg3(rdp) << 7) | (sub << 5) | (Reg3(rs2p) << 2) | 1
  }

  /** CR. */
  function LayoutCR(bit12: bv32, rd: bv5, rs2: bv5): bv32 {
    (4 << 13) | (bit12 << 12) | (Reg(rd) << 7) | (Reg(rs2) << 2) | 2
  }

  function LayoutAddi4spn(rdp: bv3, imm: bv32): bv32 {
    (Field(imm, 4, 5) << 11) | (Field(imm, 6, 9) << 7) | (Field(imm, 2, 2) << 6) | (Field(imm, 3, 3) << 5) | (Reg3(rdp) << 2)
  }

  /** imm[9], x2, imm[4|6|8:7|5]. */
  function LayoutAddi16sp(imm: bv32): bv32 {
    (3 << 13) | (Field(imm, 9, 9) << 12) | (2 << 7) | (Field(imm, 4, 4) << 6) | (Field(imm, 6, 6) << 5)
    | (Field(imm, 7, 8) << 3) | (Field(imm, 5, 5) << 2) | 1
  }

  function LayoutLwsp(rd: bv5, imm: bv32): bv32 {
    (2 << 13) | (Field(imm, 5, 5) << 12) | (Reg(rd) << 7) | (Field(imm, 2, 4) << 4) | (Field(imm, 6, 7) << 2) | 2
  }

  function LayoutSwsp(rs2: bv5, imm: bv32): bv32 {
    (6 << 13) | (Field(imm, 2, 5) << 9) | (Field(imm, 6, 7) << 7) | (Reg(rs2) << 2) | 2
  }

  function Layout(c: Rvc): bv32 {
    match c
    case CAddi4spn(rdp, imm) => LayoutAddi4spn(rdp, imm)
    case CLw(rdp, rs1p, imm) => LayoutCL(2, rs1p, rdp, imm)
    case CSw(rs1p, rs2p, imm) => LayoutCL(6, rs1p, rs2p, imm)
    case CAddi(rd, imm) => LayoutCI(0, rd, imm, 1)
    case CJal(imm) => LayoutCJ(1, imm)
    case CLi(rd, imm) => LayoutCI(2, rd, imm, 1)
    case CAddi16sp(imm) => LayoutAddi16sp(imm)
    case CLui(rd, imm) => LayoutCI(3, rd, imm, 1)
    case CSrli(rdp, shamt) => LayoutShift(0, rdp, Reg(shamt))
    case CSrai(rdp, shamt) => LayoutShift(1, rdp, Reg(shamt))
    case CAndi(rdp, imm) => LayoutShift(2, rdp, imm)
    case CSub(rdp, rs2p) => LayoutCA(0, rdp, rs2p)
    case CXor(rdp, rs2p) => LayoutCA(1, rdp, rs2p)
    case COr(rdp, rs2p) => LayoutCA(2, rdp, rs2p)
    case CAnd(rdp, rs2p) => LayoutCA(3, rdp, rs2p)
    case CJ(imm) => LayoutCJ(5, imm)
    case CBeqz(rs1p, imm) => LayoutCB(6, rs1p, imm)
    case CBnez(rs1p, imm) => LayoutCB(7, rs1p, imm)
    case CSlli(rd, shamt) => LayoutCI(0, rd, Reg(shamt), 2)
    case CLwsp(rd, imm) => LayoutLwsp(rd, imm)
    case CJr(rs1) => LayoutCR(0, rs1, 0)
    case CMv(rd, rs2) => LayoutCR(0, rd, rs2)
    case CEbreak => LayoutCR(1, 0, 0)
    case CJalr(rs1) => LayoutCR(1, rs1, 0)
    case CAdd(rd, rs2) => LayoutCR(1, rd, rs2)
    case CSwsp(rs2, imm) => LayoutSwsp(rs2, imm)
  }

  /** The 32-bit instruction chapter 16 gives for the form. */
  function Meaning(c: Rvc): Instr {
    match c
    case CAddi4spn(rdp, imm) => Immediate(ADDI, Prime(rdp), 2, imm)
    case CLw(rdp, rs1p, imm) => Load(LW, Prime(rdp), Prime(rs1p), imm)
    case CSw(rs1p, rs2p, imm) => Store(SW, Prime(rs1p), Prime(rs2p), imm)
    case CAddi(rd, imm) => Immediate(ADDI, rd, rd, imm)
    case CJal(imm) => Jal(1, imm)
    case CLi(rd, imm) => Immediate(ADDI, rd, 0, imm)
    case CAddi16sp(imm) => Immediate(ADDI, 2, 2, imm)
    case CLui(rd, imm) => Lui(rd, imm << 12)
    case CSrli(rdp, shamt) => Immediate(SRLI, Prime(rdp), Prime(rdp), Reg(shamt))
    case CSrai(rdp, shamt) => Immediate(SRAI, Prime(rdp), Prime(rdp), Reg(shamt))
    case CAndi(rdp, imm) => Immediate(ANDI, Prime(rdp), Prime(rdp), imm)
    case CSub(rdp, rs2p) => Register(SUB, Prime(rdp), Prime(rdp), Prime(rs2p))
    case CXor(rdp, rs2p) => Register(XOR, Prime(rdp), Prime(rdp), Prime(rs2p))
    case COr(rdp, rs2p) => Register(OR, Prime(rdp), Prime(rdp), Prime(rs2p))
    case CAnd(rdp, rs2p) => Register(AND, Prime(rdp), Prime(rdp), Prime(rs2p))
    case CJ(imm) => Jal(0, imm)
    case CBeqz(rs1p, imm) => Branch(BEQ, Prime(rs1p), 0, imm)
    case CBnez(rs1p, imm) => Branch(BNE, Prime(rs1p), 0, imm)
    case CSlli(rd, shamt) => Immediate(SLLI, rd, rd, Reg(shamt))
    case CLwsp(rd, imm) => Load(LW, rd, 2, imm)
    case CJr(rs1) => Jalr(0, rs1, 0)
    case CMv(rd, rs2) => Register(ADD, rd, 0, rs2)
    case CEbreak => Ebreak
    case CJalr(rs1) => Jalr(1, rs1, 0)
    case CAdd(rd, rs2) => Register(ADD, rd, rd, rs2)
    case CSwsp(rs2, imm) => Store(SW, 2, rs2, imm)
  }

  // ----- gathering undoes the layout --------------------------------------------------

  predicate IsQuadrant(op: bv32) {
    op < 4
  }

  lemma CodesOfCI(funct3: bv32, rd: bv5, imm: bv32, op: bv32)
    requires IsFunct3(funct3) && IsQuadrant(op)
    ensures GetBits(LayoutCI(funct3, rd, imm, op), 0, 1) == op
    ensures GetBits(LayoutCI(funct3, rd, imm, op), 13, 15) == funct3
  {
  }

  lemma FieldsOfCI(funct3: bv32, rd: bv5, imm: bv32, op: bv32)
    requires IsFunct3(funct3) && IsQuadrant(op)
    ensures GetBits(LayoutCI(funct3, rd, imm, op), 7, 11) == Reg(rd)
    ensures Imm6(LayoutCI(funct3, rd, imm, op)) == imm & 0x3F
  {
  }

  lemma SignExtend6Low(imm: bv32)
    requires imm & 0xFFFF_FFE0 == 0
    ensures SignExtend(imm & 0x3F, 6) == imm
  {
  }

  lemma SignExtend6High(imm: bv32)
    requires imm & 0xFFFF_FFE0 == 0xFFFF_FFE0
    ensures SignExtend(imm & 0x3F, 6) == imm
  {
  }

  lemma SignExtend6(imm: bv32)
    requires Signed6(imm)
    ensures SignExtend(imm & 0x3F, 6) == imm
  {
    hide SignExtend;
    if imm & 0xFFFF_FFE0 == 0 { SignExtend6Low(imm); } else { SignExtend6High(imm); }
  }

  lemma OfCJ(funct3: bv32, imm: bv32)
    requires IsFunct3(funct3)
    ensures var i := LayoutCJ(funct3, imm); GetBits(i, 0, 1) == 1 && GetBits(i, 13, 15) == funct3
  {
  }

  lemma JumpImmLow(funct3: bv32, imm: bv32)
    requires IsFunct3(funct3) && imm & 1 == 0 && imm & 0xFFFF_F800 == 0
    ensures JumpImm(LayoutCJ(funct3, imm)) == imm
  {
  }

  lemma JumpImmHigh(funct3: bv32, imm: bv32)
    requires IsFunct3(funct3) && imm & 1 == 0 && imm & 0xFFFF_F800 == 0xFFFF_F800
    ensures JumpImm(LayoutCJ(funct3, imm)) == imm
  {
  }

  lemma OfCB(funct3: bv32, rs1p: bv3, imm: bv32)
    requires IsFunct3(funct3)
    ensures var i := LayoutCB(funct3, rs1p, imm);
      GetBits(i, 0, 1) == 1 && GetBits(i, 13, 15) == funct3 && RvcRegister(i, 7) == Reg(Prime(rs1p))
  {
  }

  lemma BranchImmLow(funct3: bv32, rs1p: bv3, imm: bv32)
    requires IsFunct3(funct3) && imm & 1 == 0 && imm & 0xFFFF_FF00 == 0
    ensures BranchImm(LayoutCB(funct3, rs1p, imm)) == imm
  {
  }

  lemma BranchImmHigh(funct3: bv32, rs1p: bv3, imm: bv32)
    requires IsFunct3(funct3) && imm & 1 == 0 && imm & 0xFFFF_FF00 == 0xFFFF_FF00
    ensures BranchImm(LayoutCB(funct3, rs1p, imm)) == imm
  {
  }

  lemma OfCL(funct3: bv32, rs1p: bv3, rp: bv3, imm: bv32)
    requires IsFunct3(funct3) && Within(imm, 0x7C)
    ensures var i := LayoutCL(funct3, rs1p, rp, imm);
      GetBits(i, 0, 1) == 0 && GetBits(i, 13, 15) == funct3
      && RvcRegister(i, 7) == Reg(Prime(rs1p)) && RvcRegister(i, 2) == Reg(Prime(rp)) && WordOffset(i) == imm
  {
  }

  predicate IsFunct2(x: bv32) {
    x < 4
  }

  lemma CodesOfShift(funct2: bv32, rdp: bv3, imm: bv32)
    requires IsFunct2(funct2)
    ensures var i := LayoutShift(funct2, rdp, imm);
      GetBits(i, 0, 1) == 1 && GetBits(i, 13, 15) == 4 && GetBits(i, 10, 11) == funct2
  {
  }

  lemma FieldsOfShift(funct2: bv32, rdp: bv3, imm: bv32)
    requires IsFunct2(funct2)
    ensures var i := LayoutShift(funct2, rdp, imm); RvcRegister(i, 7) == Reg(Prime(rdp)) && Imm6(i) == imm & 0x3F
  {
  }

  lemma OfCA(sub: bv32, rdp: bv3, rs2p: bv3)
    requires IsFunct2(sub)
    ensures var i := LayoutCA(sub, rdp, rs2p);
      GetBits(i, 0, 1) == 1 && GetBits(i, 13, 15) == 4 && GetBits(i, 10, 11) == 3 && GetBits(i, 5, 6) == sub
      && RvcRegister(i, 7) == Reg(Prime(rdp)) && RvcRegister(i, 2) == Reg(Prime(rs2p))
  {
  }

  predicate IsBit(x: bv32) {
    x < 2
  }

  lemma CodesOfCR(bit12: bv32, rd: bv5, rs2: bv5)
    requires IsBit(bit12)
    ensures var i := LayoutCR(bit12, rd, rs2); GetBits(i, 0, 1) == 2 && GetBits(i, 13, 15) == 4
  {
  }

  lemma Bit12OfCR(rd: bv5, rs2: bv5)
    ensures GetBits(LayoutCR(0, rd, rs2), 12, 12) == 0 && GetBits(LayoutCR(1, rd, rs2), 12, 12) == 1
  {
  }

  lemma RdOfCR(bit12: bv32, rd: bv5, rs2: bv5)
    requires IsBit(bit12)
    ensures GetBits(LayoutCR(bit12, rd, rs2), 7, 11) == Reg(rd)
  {
  }

  lemma Rs2OfCR(bit12: bv32, rd: bv5, rs2: bv5)
    requires IsBit(bit12)
    ensures GetBits(LayoutCR(bit12, rd, rs2), 2, 6) == Reg(rs2)
  {
  }

  /** The immediate of C.ADDI4SPN. */
  function StackOffset(i: bv32): bv32 {
    (GetBits(i, 7, 10) << 6) | (GetBits(i, 11, 12) << 4) | (GetBits(i, 5, 5) << 3) | (GetBits(i, 6, 6) << 2)
  }

  lemma OfAddi4spn(rdp: bv3, imm: bv32)
    requires Within(imm, 0x3FC)
    ensures var i := LayoutAddi4spn(rdp, imm);
      GetBits(i, 0, 1) == 0 && GetBits(i, 13, 15) == 0 && RvcRegister(i, 2) == Reg(Prime(rdp)) && StackOffset(i) == imm
  {
  }

  /** The immediate of C.ADDI16SP. */
  function StackAdjust(i: bv32): bv32 {
    SignExtend((GetBits(i, 12, 12) << 9) | (GetBits(i, 3, 4) << 7) | (GetBits(i, 5, 5) << 6)
      | (GetBits(i, 2, 2) << 5) | (GetBits(i, 6, 6) << 4), 10)
  }

  lemma OfAddi16sp(imm: bv32)
    ensures var i := LayoutAddi16sp(imm); GetBits(i, 0, 1) == 1 && GetBits(i, 13, 15) == 3 && GetBits(i, 7, 11) == 2
  {
  }

  lemma StackAdjustLow(imm: bv32)
    requires imm & 0xF == 0 && imm & 0xFFFF_FE00 == 0
    ensures StackAdjust(LayoutAddi16sp(imm)) == imm
  {
  }

  lemma StackAdjustHigh(imm: bv32)
    requires imm & 0xF == 0 && imm & 0xFFFF_FE00 == 0xFFFF_FE00
    ensures StackAdjust(LayoutAddi16sp(imm)) == imm
  {
  }

  /** The offset of C.LWSP and of C.SWSP. */
  function LwspOffset(i: bv32): bv32 {
    (GetBits(i, 2, 3) << 6) | (GetBits(i, 12, 12) << 5) | (GetBits(i, 4, 6) << 2)
  }

  function SwspOffset(i: bv32): bv32 {
    (GetBits(i, 7, 8) << 6) | (GetBits(i, 9, 12) << 2)
  }

  lemma CodesOfLwsp(rd: bv5, imm: bv32)
    ensures var i := LayoutLwsp(rd, imm); GetBits(i, 0, 1) == 2 && GetBits(i, 13, 15) == 2
  {
  }

  lemma RdOfLwsp(rd: bv5, imm: bv32)
    ensures GetBits(LayoutLwsp(rd, imm), 7, 11) == Reg(rd)
  {
  }

  lemma OffsetOfLwsp(rd: bv5, imm: bv32)
    requires Within(imm, 0xFC)
    ensures LwspOffset(LayoutLwsp(rd, imm)) == imm
  {
  }

  lemma OfSwsp(rs2: bv5, imm: bv32)
    requires Within(imm, 0xFC)
    ensures var i := LayoutSwsp(rs2, imm);
      GetBits(i, 0, 1) == 2 && GetBits(i, 13, 15) == 6 && GetBits(i, 2, 6) == Reg(rs2) && SwspOffset(i) == imm
  {
  }

  // ----- widths -----------------------------------------------------------------------

  lemma Signed6Fits(imm: bv32)
    requires Signed6(imm)
    ensures Fits12(imm)
  {
    if imm & 0xFFFF_FFE0 == 0 { Narrow6Low(imm); } else { Narrow6High(imm); }
  }

  lemma Narrow6Low(imm: bv32)
    requires imm & 0xFFFF_FFE0 == 0
    ensures imm & 0xFFFF_F800 == 0
  {
  }

  lemma Narrow6High(imm: bv32)
    requires imm & 0xFFFF_FFE0 == 0xFFFF_FFE0
    ensures imm & 0xFFFF_F800 == 0xFFFF_F800
  {
  }

  lemma Narrow10Low(imm: bv32)
    requires imm & 0xFFFF_FE00 == 0
    ensures imm & 0xFFFF_F800 == 0
  {
  }

  lemma Narrow10High(imm: bv32)
    requires imm & 0xFFFF_FE00 == 0xFFFF_FE00
    ensures imm & 0xFFFF_F800 == 0xFFFF_F800
  {
  }

  lemma Narrow9Low(imm: bv32)
    requires imm & 0xFFFF_FF00 == 0
    ensures imm & 0xFFFF_F000 == 0
  {
  }

  lemma Narrow9High(imm: bv32)
    requires imm & 0xFFFF_FF00 == 0xFFFF_FF00
    ensures imm & 0xFFFF_F000 == 0xFFFF_F000
  {
  }

  lemma Narrow12Low(imm: bv32)
    requires imm & 0xFFFF_F800 == 0
    ensures imm & 0xFFF0_0000 == 0
  {
  }

  lemma Narrow12High(imm: bv32)
    requires imm & 0xFFFF_F800 == 0xFFFF_F800
    ensures imm & 0xFFF0_0000 == 0xFFF0_0000
  {
  }

  lemma StackAdjustIs(imm: bv32)
    requires Signed10(imm) && imm & 0xF == 0
    ensures Fits12(imm) && StackAdjust(LayoutAddi16sp(imm)) == imm
  {
    hide StackAdjust, LayoutAddi16sp;
    if imm & 0xFFFF_FE00 == 0 {
      Narrow10Low(imm);
      StackAdjustLow(imm);
    } else {
      Narrow10High(imm);
      StackAdjustHigh(imm);
    }
  }

  lemma BranchImmIs(funct3: bv32, rs1p: bv3, imm: bv32)
    requires IsFunct3(funct3) && Signed9(imm) && Even(imm)
    ensures Fits13(imm) && BranchImm(LayoutCB(funct3, rs1p, imm)) == imm
  {
    hide BranchImm, LayoutCB;
    if imm & 0xFFFF_FF00 == 0 {
      Narrow9Low(imm);
      BranchImmLow(funct3, rs1p, imm);
    } else {
      Narrow9High(imm);
      BranchImmHigh(funct3, rs1p, imm);
    }
  }

  lemma JumpImmIs(funct3: bv32, imm: bv32)
    requires IsFunct3(funct3) && Signed12(imm) && Even(imm)
    ensures Fits21(imm) && JumpImm(LayoutCJ(funct3, imm)) == imm
  {
    hide JumpImm, LayoutCJ;
    if imm & 0xFFFF_F800 == 0 {
      Narrow12Low(imm);
      JumpImmLow(funct3, imm);
    } else {
      Narrow12High(imm);
      JumpImmHigh(funct3, imm);
    }
  }

  lemma StackOffsetFits(imm: bv32)
    requires Within(imm, 0x3FC)
    ensures Fits12(imm)
  {
  }

  lemma WordOffsetFits(imm: bv32)
    requires Within(imm, 0x7C)
    ensures Fits12(imm)
  {
  }

  lemma StackWordFits(imm: bv32)
    requires Within(imm, 0xFC)
    ensures Fits12(imm)
  {
  }

  // ----- expansion, form by form ----------------------------------------------------

  lemma NonZeroReg(r: bv5)
    ensures Reg(r) == 0 <==> r == 0
    ensures Reg(r) == 2 <==> r == 2
  {
  }

  lemma Addi4spnExpands(rdp: bv3, imm: bv32)
    requires Within(imm, 0x3FC) && imm != 0
    ensures Decode(Quadrants(LayoutAddi4spn(rdp, imm))) == Immediate(ADDI, Prime(rdp), 2, imm)
  {
    OfAddi4spn(rdp, imm);
    StackOffsetFits(imm);
    Assembler.DecodesImmediate(ADDI, Prime(rdp), 2, imm);
    assert Reg(2) == 2;
    hide GetBits, LayoutAddi4spn, RvcRegister, BuildI, Decode, Reg, Prime, Fits12, Within, Quadrant1, Quadrant2;
  }

  lemma LwExpands(rdp: bv3, rs1p: bv3, imm: bv32)
    requires Within(imm, 0x7C)
    ensures Decode(Quadrants(LayoutCL(2, rs1p, rdp, imm))) == Load(LW, Prime(rdp), Prime(rs1p), imm)
  {
    OfCL(2, rs1p, rdp, imm);
    WordOffsetFits(imm);
    Assembler.DecodesLoad(LW, Prime(rdp), Prime(rs1p), imm);
    hide GetBits, LayoutCL, RvcRegister, BuildI, BuildS, Decode, Reg, Prime, Fits12, Within, WordOffset, Quadrant1, Quadrant2;
  }

  lemma SwExpands(rs1p: bv3, rs2p: bv3, imm: bv32)
    requires Within(imm, 0x7C)
    ensures Decode(Quadrants(LayoutCL(6, rs1p, rs2p, imm))) == Store(SW, Prime(rs1p), Prime(rs2p), imm)
  {
    OfCL(6, rs1p, rs2p, imm);
    WordOffsetFits(imm);
    Assembler.DecodesStore(SW, Prime(rs1p), Prime(rs2p), imm);
    hide GetBits, LayoutCL, RvcRegister, BuildI, BuildS, Decode, Reg, Prime, Fits12, Within, WordOffset, Quadrant1, Quadrant2;
  }

  lemma AddiExpands(rd: bv5, imm: bv32)
    requires Signed6(imm)
    ensures Decode(Quadrants(LayoutCI(0, rd, imm, 1))) == Immediate(ADDI, rd, rd, imm)
  {
    CodesOfCI(0, rd, imm, 1);
    FieldsOfCI(0, rd, imm, 1);
    SignExtend6(imm);
    Signed6Fits(imm);
    Assembler.DecodesImmediate(ADDI, rd, rd, imm);
    hide GetBits, LayoutCI, Imm6, SignExtend, BuildI, Decode, Reg, Fits12, Signed6, Quadrant0, Quadrant2, StackOrUpper, MiscAlu, JumpImm, BranchImm, BuildJ, BuildB;
  }

  lemma LiExpands(rd: bv5, imm: bv32)
    requires rd != 0 && Signed6(imm)
    ensures Decode(Quadrants(LayoutCI(2, rd, imm, 1))) == Immediate(ADDI, rd, 0, imm)
  {
    CodesOfCI(2, rd, imm, 1);
    FieldsOfCI(2, rd, imm, 1);
    NonZeroReg(rd);
    SignExtend6(imm);
    Signed6Fits(imm);
    Assembler.DecodesImmediate(ADDI, rd, 0, imm);
    Assembler.ZeroReg();
    hide GetBits, LayoutCI, Imm6, SignExtend, BuildI, Decode, Reg, Fits12, Signed6, Quadrant0, Quadrant2, StackOrUpper, MiscAlu, JumpImm, BranchImm, BuildJ, BuildB;
  }

  lemma JumpExpands(funct3: bv32, imm: bv32)
    requires (funct3 == 1 || funct3 == 5) && Signed12(imm) && Even(imm)
    ensures Decode(Quadrants(LayoutCJ(funct3, imm))) == Jal(if funct3 == 1 then 1 else 0, imm)
  {
    OfCJ(funct3, imm);
    JumpImmIs(funct3, imm);
    Assembler.DecodesJ(1, imm);
    Assembler.DecodesJ(0, imm);
    assert Reg(1) == 1 && Reg(0) == 0;
    hide GetBits, LayoutCJ, Imm6, SignExtend, BuildI, Decode, Reg, Fits21, Signed12, Even, Quadrant0, Quadrant2, StackOrUpper, MiscAlu, JumpImm, BranchImm, BuildJ, BuildB;
  }

  lemma BranchExpands(funct3: bv32, rs1p: bv3, imm: bv32)
    requires (funct3 == 6 || funct3 == 7) && Signed9(imm) && Even(imm)
    ensures Decode(Quadrants(LayoutCB(funct3, rs1p, imm))) == Branch(if funct3 == 6 then BEQ else BNE, Prime(rs1p), 0, imm)
  {
    OfCB(funct3, rs1p, imm);
    BranchImmIs(funct3, rs1p, imm);
    Assembler.DecodesB(BEQ, Prime(rs1p), 0, imm);
    Assembler.DecodesB(BNE, Prime(rs1p), 0, imm);
    Assembler.ZeroReg();
    hide GetBits, LayoutCB, Imm6, SignExtend, BuildI, Decode, Reg, Prime, Fits13, Signed9, Even, Quadrant0, Quadrant2, StackOrUpper, MiscAlu, JumpImm, BranchImm, BuildJ, BuildB, RvcRegister;
  }

  lemma Addi16spExpands(imm: bv32)
    requires imm != 0 && imm & 0xF == 0 && Signed10(imm)
    ensures Decode(Quadrants(LayoutAddi16sp(imm))) == Immediate(ADDI, 2, 2, imm)
  {
    OfAddi16sp(imm);
    StackAdjustIs(imm);
    Assembler.DecodesImmediate(ADDI, 2, 2, imm);
    assert Reg(2) == 2;
    hide GetBits, LayoutAddi16sp, Imm6, SignExtend, BuildI, BuildU, Decode, Reg, Fits12, Signed10, Quadrant0, Quadrant2, MiscAlu, JumpImm, BranchImm, BuildJ, BuildB;
  }

  lemma LuiExpands(rd: bv5, imm: bv32)
    requires rd != 0 && rd != 2 && imm != 0 && Signed6(imm)
    ensures Decode(Quadrants(LayoutCI(3, rd, imm, 1))) == Lui(rd, imm << 12)
  {
    CodesOfCI(3, rd, imm, 1);
    FieldsOfCI(3, rd, imm, 1);
    NonZeroReg(rd);
    SignExtend6(imm);
    Assembler.UpperIs(imm);
    Assembler.DecodesU(rd, imm << 12);
    hide GetBits, LayoutCI, Imm6, SignExtend, BuildI, BuildU, Decode, Reg, Signed6, Quadrant0, Quadrant2, MiscAlu, JumpImm, BranchImm, BuildJ, BuildB;
  }

  lemma SrliWord(rdp: bv3, shamt: bv5)
    ensures Quadrants(LayoutShift(0, rdp, Reg(shamt))) == BuildI(0x13, 5, Reg(Prime(rdp)), Reg(Prime(rdp)), Reg(shamt))
  {
    hide GetBits, LayoutShift, Imm6, SignExtend, BuildI, BuildR, Reg, Prime, Quadrant0, Quadrant2, StackOrUpper, JumpImm, BranchImm, BuildJ, BuildB, RvcRegister, Ranges.Fits5;
    CodesOfShift(0, rdp, Reg(shamt));
    FieldsOfShift(0, rdp, Reg(shamt));
    ShamtBits(shamt);
  }

  lemma SrliExpands(rdp: bv3, shamt: bv5)
    ensures Decode(Quadrants(LayoutShift(0, rdp, Reg(shamt)))) == Immediate(SRLI, Prime(rdp), Prime(rdp), Reg(shamt))
  {
    hide LayoutShift, BuildI, Decode, Reg, Prime, Quadrants, Ranges.Fits5;
    SrliWord(rdp, shamt);
    ShamtBits(shamt);
    Assembler.DecodesShift(SRLI, Prime(rdp), Prime(rdp), Reg(shamt));
  }

  lemma SraiWord(rdp: bv3, shamt: bv5)
    ensures Quadrants(LayoutShift(1, rdp, Reg(shamt))) == BuildI(0x13, 5, Reg(Prime(rdp)), Reg(Prime(rdp)), Reg(shamt) | 0x400)
  {
    hide GetBits, LayoutShift, Imm6, SignExtend, BuildI, BuildR, Reg, Prime, Quadrant0, Quadrant2, StackOrUpper, JumpImm, BranchImm, BuildJ, BuildB, RvcRegister, Ranges.Fits5;
    CodesOfShift(1, rdp, Reg(shamt));
    FieldsOfShift(1, rdp, Reg(shamt));
    ShamtBits(shamt);
  }

  lemma SraiExpands(rdp: bv3, shamt: bv5)
    ensures Decode(Quadrants(LayoutShift(1, rdp, Reg(shamt)))) == Immediate(SRAI, Prime(rdp), Prime(rdp), Reg(shamt))
  {
    hide LayoutShift, BuildI, Decode, Reg, Prime, Quadrants, Ranges.Fits5;
    SraiWord(rdp, shamt);
    ShamtBits(shamt);
    Assembler.DecodesShift(SRAI, Prime(rdp), Prime(rdp), Reg(shamt));
  }

  lemma ShamtBits(shamt: bv5)
    ensures Reg(shamt) & 0x3F == Reg(shamt) && Ranges.Fits5(Reg(shamt))
  {
  }

  lemma AndiExpands(rdp: bv3, imm: bv32)
    requires Signed6(imm)
    ensures Decode(Quadrants(LayoutShift(2, rdp, imm))) == Immediate(ANDI, Prime(rdp), Prime(rdp), imm)
  {
    CodesOfShift(2, rdp, imm);
    FieldsOfShift(2, rdp, imm);
    SignExtend6(imm);
    Signed6Fits(imm);
    Assembler.DecodesImmediate(ANDI, Prime(rdp), Prime(rdp), imm);
    hide GetBits, LayoutShift, Imm6, SignExtend, BuildI, BuildR, Decode, Reg, Prime, Fits12, Signed6, Quadrant0, Quadrant2, StackOrUpper, JumpImm, BranchImm, BuildJ, BuildB, RvcRegister;
  }

  function ArithmeticOp(sub: bv32): ROp {
    if sub == 0 then SUB else if sub == 1 then XOR else if sub == 2 then OR else AND
  }

  function ArithmeticWord(sub: bv32, rd: bv32, rs2: bv32): bv32 {
    if sub == 0 then BuildR(0x33, 0, 0x20, rd, rd, rs2)
    else if sub == 1 then BuildR(0x33, 4, 0, rd, rd, rs2)
    else if sub == 2 then BuildR(0x33, 6, 0, rd, rd, rs2)
    else BuildR(0x33, 7, 0, rd, rd, rs2)
  }

  lemma ArithmeticQuadrant(sub: bv32, rdp: bv3, rs2p: bv3)
    requires sub == 0 || sub == 1 || sub == 2 || sub == 3
    ensures Quadrants(LayoutCA(sub, rdp, rs2p)) == ArithmeticWord(sub, Reg(Prime(rdp)), Reg(Prime(rs2p)))
  {
    OfCA(sub, rdp, rs2p);
    hide GetBits, LayoutCA, Imm6, SignExtend, BuildI, BuildR, Reg, Prime, Quadrant0, Quadrant2, StackOrUpper, JumpImm, BranchImm, BuildJ, BuildB, RvcRegister;
  }

  lemma ArithmeticDecodes(sub: bv32, rd: bv5, rs2: bv5)
    requires sub == 0 || sub == 1 || sub == 2 || sub == 3
    ensures Decode(ArithmeticWord(sub, Reg(rd), Reg(rs2))) == Register(ArithmeticOp(sub), rd, rd, rs2)
  {
    hide BuildR, Decode, Reg;
    Assembler.DecodesR(ArithmeticOp(sub), rd, rd, rs2);
  }

  lemma ArithmeticExpands(sub: bv32, rdp: bv3, rs2p: bv3)
    requires sub == 0 || sub == 1 || sub == 2 || sub == 3
    ensures Decode(Quadrants(LayoutCA(sub, rdp, rs2p))) == Register(ArithmeticOp(sub), Prime(rdp), Prime(rdp), Prime(rs2p))
  {
    hide *;
    ArithmeticQuadrant(sub, rdp, rs2p);
    ArithmeticDecodes(sub, Prime(rdp), Prime(rs2p));
  }

  lemma SlliWord(rd: bv5, shamt: bv5)
    requires rd != 0 && shamt != 0
    ensures Quadrants(LayoutCI(0, rd, Reg(shamt), 2)) == BuildI(0x13, 1, Reg(rd), Reg(rd), Reg(shamt))
  {
    hide GetBits, LayoutCI, Imm6, BuildI, BuildS, BuildR, Reg, Quadrant0, Quadrant1, JumpMoveAdd, Ranges.Fits5;
    CodesOfCI(0, rd, Reg(shamt), 2);
    FieldsOfCI(0, rd, Reg(shamt), 2);
    NonZeroReg(rd);
    NonZeroReg(shamt);
    ShamtBits(shamt);
  }

  lemma SlliExpands(rd: bv5, shamt: bv5)
    requires rd != 0 && shamt != 0
    ensures Decode(Quadrants(LayoutCI(0, rd, Reg(shamt), 2))) == Immediate(SLLI, rd, rd, Reg(shamt))
  {
    hide LayoutCI, BuildI, Decode, Reg, Quadrants, Ranges.Fits5;
    SlliWord(rd, shamt);
    ShamtBits(shamt);
    Assembler.DecodesShift(SLLI, rd, rd, Reg(shamt));
  }

  lemma LwspExpands(rd: bv5, imm: bv32)
    requires rd != 0 && Within(imm, 0xFC)
    ensures Decode(Quadrants(LayoutLwsp(rd, imm))) == Load(LW, rd, 2, imm)
  {
    CodesOfLwsp(rd, imm);
    RdOfLwsp(rd, imm);
    OffsetOfLwsp(rd, imm);
    NonZeroReg(rd);
    StackWordFits(imm);
    Assembler.DecodesLoad(LW, rd, 2, imm);
    assert Reg(2) == 2;
    hide GetBits, LayoutLwsp, Imm6, BuildI, BuildS, BuildR, Decode, Reg, Within, Fits12, Quadrant0, Quadrant1, JumpMoveAdd;
  }

  lemma SwspExpands(rs2: bv5, imm: bv32)
    requires Within(imm, 0xFC)
    ensures Decode(Quadrants(LayoutSwsp(rs2, imm))) == Store(SW, 2, rs2, imm)
  {
    OfSwsp(rs2, imm);
    StackWordFits(imm);
    Assembler.DecodesStore(SW, 2, rs2, imm);
    assert Reg(2) == 2;
    hide GetBits, LayoutSwsp, Imm6, BuildI, BuildS, BuildR, Decode, Reg, Within, Fits12, Quadrant0, Quadrant1, JumpMoveAdd;
  }

  lemma FieldsOfCR(bit12: bv32, rd: bv5, rs2: bv5)
    requires bit12 == 0 || bit12 == 1
    ensures var i := LayoutCR(bit12, rd, rs2);
      Quadrants(i) == JumpMoveAdd(i) && GetBits(i, 12, 12) == bit12 && GetBits(i, 7, 11) == Reg(rd) && GetBits(i, 2, 6) == Reg(rs2)
  {
    CodesOfCR(bit12, rd, rs2);
    Bit12OfCR(rd, rs2);
    RdOfCR(bit12, rd, rs2);
    Rs2OfCR(bit12, rd, rs2);
    hide GetBits, LayoutCR, Imm6, BuildI, BuildS, BuildR, Reg, Quadrant0, Quadrant1, JumpMoveAdd;
  }

  lemma JrExpands(bit12: bv32, rs1: bv5)
    requires rs1 != 0 && (bit12 == 0 || bit12 == 1)
    ensures Decode(Quadrants(LayoutCR(bit12, rs1, 0))) == Jalr(if bit12 == 0 then 0 else 1, rs1, 0)
  {
    FieldsOfCR(bit12, rs1, 0);
    NonZeroReg(rs1);
    assert Reg(0) == 0 && Reg(1) == 1 && Fits12(0);
    Assembler.DecodesJalr(0, rs1, 0);
    Assembler.DecodesJalr(1, rs1, 0);
    hide GetBits, LayoutCR, BuildI, BuildR, Decode, Reg, Fits12, Quadrants;
  }

  lemma MoveAddExpands(bit12: bv32, rd: bv5, rs2: bv5)
    requires rd != 0 && rs2 != 0 && (bit12 == 0 || bit12 == 1)
    ensures Decode(Quadrants(LayoutCR(bit12, rd, rs2))) == Register(ADD, rd, if bit12 == 0 then 0 else rd, rs2)
  {
    FieldsOfCR(bit12, rd, rs2);
    NonZeroReg(rd);
    NonZeroReg(rs2);
    Assembler.ZeroReg();
    Assembler.DecodesR(ADD, rd, 0, rs2);
    Assembler.DecodesR(ADD, rd, rd, rs2);
    hide GetBits, LayoutCR, BuildI, BuildR, Decode, Reg, Quadrants;
  }

  lemma EbreakExpands()
    ensures Decode(Quadrants(LayoutCR(1, 0, 0))) == Ebreak
  {
    FieldsOfCR(1, 0, 0);
    Assembler.ZeroReg();
    Assembler.DecodesEbreak();
    hide GetBits, LayoutCR, BuildI, BuildR, Decode, Reg, Quadrants;
  }

  lemma Quadrant0Forms(c: Rvc)
    requires Legal(c) && (c.CAddi4spn? || c.CLw? || c.CSw?)
    ensures Decode(Quadrants(Layout(c))) == Meaning(c)
  {
    hide Decode, Quadrants, LayoutAddi4spn, LayoutCL, Within, Prime;
    match c
    case CAddi4spn(rdp, imm) => Addi4spnExpands(rdp, imm);
    case CLw(rdp, rs1p, imm) => LwExpands(rdp, rs1p, imm);
    case CSw(rs1p, rs2p, imm) => SwExpands(rs1p, rs2p, imm);
  }

  lemma UpperForms(c: Rvc)
    requires Legal(c) && (c.CAddi? || c.CLi? || c.CAddi16sp? || c.CLui?)
    ensures Decode(Quadrants(Layout(c))) == Meaning(c)
  {
    hide Decode, Quadrants, LayoutCI, LayoutAddi16sp, Signed6, Signed10;
    match c
    case CAddi(rd, imm) => AddiExpands(rd, imm);
    case CLi(rd, imm) => LiExpands(rd, imm);
    case CAddi16sp(imm) => Addi16spExpands(imm);
    case CLui(rd, imm) => LuiExpands(rd, imm);
  }

  lemma JumpForms(c: Rvc)
    requires Legal(c) && (c.CJal? || c.CJ?)
    ensures Decode(Quadrants(Layout(c))) == Meaning(c)
  {
    hide Decode, Quadrants, LayoutCJ, LayoutCB, Signed9, Signed12, Even, Prime;
    match c
    case CJal(imm) => JumpExpands(1, imm);
    case CJ(imm) => JumpExpands(5, imm);
  }

  lemma BranchForms(c: Rvc)
    requires Legal(c) && (c.CBeqz? || c.CBnez?)
    ensures Decode(Quadrants(Layout(c))) == Meaning(c)
  {
    hide Decode, Quadrants, LayoutCJ, LayoutCB, Signed9, Signed12, Even, Prime;
    match c
    case CBeqz(rs1p, imm) => BranchExpands(6, rs1p, imm);
    case CBnez(rs1p, imm) => BranchExpands(7, rs1p, imm);
  }

  lemma ImmediateForms(c: Rvc)
    requires Legal(c) && (c.CSrli? || c.CSrai? || c.CAndi?)
    ensures Decode(Quadrants(Layout(c))) == Meaning(c)
  {
    hide Decode, Quadrants, LayoutShift, LayoutCA, Signed6, Prime, Reg;
    match c
    case CSrli(rdp, shamt) => SrliExpands(rdp, shamt);
    case CSrai(rdp, shamt) => SraiExpands(rdp, shamt);
    case CAndi(rdp, imm) => AndiExpands(rdp, imm);
  }

  lemma ArithmeticForms(c: Rvc)
    requires Legal(c) && (c.CSub? || c.CXor? || c.COr? || c.CAnd?)
    ensures Decode(Quadrants(Layout(c))) == Meaning(c)
  {
    hide Decode, Quadrants, LayoutShift, LayoutCA, Signed6, Prime, Reg;
    match c
    case CSub(rdp, rs2p) => ArithmeticExpands(0, rdp, rs2p);
    case CXor(rdp, rs2p) => ArithmeticExpands(1, rdp, rs2p);
    case COr(rdp, rs2p) => ArithmeticExpands(2, rdp, rs2p);
    case CAnd(rdp, rs2p) => ArithmeticExpands(3, rdp, rs2p);
  }

  lemma StackForms(c: Rvc)
    requires Legal(c) && (c.CSlli? || c.CLwsp? || c.CSwsp?)
    ensures Decode(Quadrants(Layout(c))) == Meaning(c)
  {
    hide Decode, Quadrants, LayoutCI, LayoutCR, LayoutLwsp, LayoutSwsp, Within, Reg;
    match c
    case CSlli(rd, shamt) => SlliExpands(rd, shamt);
    case CLwsp(rd, imm) => LwspExpands(rd, imm);
    case CSwsp(rs2, imm) => SwspExpands(rs2, imm);
  }

  lemma MoveAddForms(c: Rvc)
    requires Legal(c) && (c.CMv? || c.CAdd?)
    ensures Decode(Quadrants(Layout(c))) == Meaning(c)
  {
    hide Decode, Quadrants, LayoutCI, LayoutCR, LayoutLwsp, LayoutSwsp, Within, Reg;
    if c.CMv? {
      MoveAddExpands(0, c.rd, c.rs2);
    } else {
      MoveAddExpands(1, c.rd, c.rs2);
    }
  }

  lemma JrForm(rs1: bv5)
    requires rs1 != 0
    ensures Decode(Quadrants(Layout(CJr(rs1)))) == Meaning(CJr(rs1)) && Decode(Quadrants(Layout(CJalr(rs1)))) == Meaning(CJalr(rs1))
  {
    hide Decode, Quadrants, LayoutAddi4spn, LayoutCL, LayoutCI, LayoutCJ, LayoutAddi16sp, LayoutShift, LayoutCA, LayoutCB, LayoutLwsp,
         LayoutCR, LayoutSwsp, Reg, Prime;
    JrExpands(0, rs1);
    JrExpands(1, rs1);
  }

  lemma EbreakForm()
    ensures Decode(Quadrants(Layout(CEbreak))) == Meaning(CEbreak)
  {
    hide Decode, Quadrants, LayoutAddi4spn, LayoutCL, LayoutCI, LayoutCJ, LayoutAddi16sp, LayoutShift, LayoutCA, LayoutCB, LayoutLwsp,
         LayoutCR, LayoutSwsp, Reg, Prime;
    EbreakExpands();
  }

  lemma JumpRegisterForms(c: Rvc)
    requires Legal(c) && (c.CJr? || c.CEbreak? || c.CJalr?)
    ensures Decode(Quadrants(Layout(c))) == Meaning(c)
  {
    hide Decode, Quadrants, Layout, Meaning;
    if c.CEbreak? {
      EbreakForm();
    } else {
      JrForm(c.rs1);
    }
  }

  lemma FormExpands(c: Rvc)
    requires Legal(c)
    ensures Decode(Quadrants(Layout(c))) == Meaning(c)
  {
    hide Decode, Quadrants, Layout, Legal, Meaning;
    if c.CAddi4spn? || c.CLw? || c.CSw? {
      Quadrant0Forms(c);
    } else if c.CAddi? || c.CLi? || c.CAddi16sp? || c.CLui? {
      UpperForms(c);
    } else if c.CJal? || c.CJ? {
      JumpForms(c);
    } else if c.CBeqz? || c.CBnez? {
      BranchForms(c);
    } else if c.CSrli? || c.CSrai? || c.CAndi? {
      ImmediateForms(c);
    } else if c.CSub? || c.CXor? || c.COr? || c.CAnd? {
      ArithmeticForms(c);
    } else if c.CSlli? || c.CLwsp? || c.CSwsp? {
      StackForms(c);
    } else if c.CMv? || c.CAdd? {
      MoveAddForms(c);
    } else {
      JumpRegisterForms(c);
    }
  }

  // ----- on the CPU ------------------------------------------------------------------

  /** A halfword, with the two low bits of a compressed instruction. */
  predicate IsHalf(x: bv32) {
    x & 0xFFFF == x && x & 3 != 3
  }

  lemma HalfOfCI(funct3: bv32, rd: bv5, imm: bv32, op: bv32)
    requires IsFunct3(funct3) && (op == 1 || op == 2)
    ensures IsHalf(LayoutCI(funct3, rd, imm, op))
  {
  }

  lemma HalfOfCJ(funct3: bv32, imm: bv32)
    requires IsFunct3(funct3)
    ensures IsHalf(LayoutCJ(funct3, imm))
  {
  }

  lemma HalfOfCB(funct3: bv32, rs1p: bv3, imm: bv32)
    requires IsFunct3(funct3)
    ensures IsHalf(LayoutCB(funct3, rs1p, imm))
  {
  }

  lemma HalfOfCL(funct3: bv32, rs1p: bv3, rp: bv3, imm: bv32)
    requires IsFunct3(funct3)
    ensures IsHalf(LayoutCL(funct3, rs1p, rp, imm))
  {
  }

  lemma HalfOfShift(funct2: bv32, rdp: bv3, imm: bv32)
    requires IsFunct2(funct2)
    ensures IsHalf(LayoutShift(funct2, rdp, imm))
  {
  }

  lemma HalfOfCA(sub: bv32, rdp: bv3, rs2p: bv3)
    requires IsFunct2(sub)
    ensures IsHalf(LayoutCA(sub, rdp, rs2p))
  {
  }

  lemma HalfOfCR(bit12: bv32, rd: bv5, rs2: bv5)
    requires IsBit(bit12)
    ensures IsHalf(LayoutCR(bit12, rd, rs2))
  {
  }

  lemma HalfOfStack(rdp: bv3, rd: bv5, imm: bv32)
    ensures IsHalf(LayoutAddi4spn(rdp, imm)) && IsHalf(LayoutAddi16sp(imm))
    ensures IsHalf(LayoutLwsp(rd, imm)) && IsHalf(LayoutSwsp(rd, imm))
  {
  }

  lemma Half0(c: Rvc)
    requires c.CAddi4spn? || c.CLw? || c.CSw?
    ensures IsHalf(Layout(c))
  {
    hide IsHalf, LayoutCI, LayoutCJ, LayoutCB, LayoutCL, LayoutShift, LayoutCA, LayoutCR, LayoutAddi4spn, LayoutAddi16sp, LayoutLwsp, LayoutSwsp, Reg;
    match c
    case CAddi4spn(rdp, imm) => HalfOfStack(rdp, 0, imm);
    case CLw(rdp, rs1p, imm) => HalfOfCL(2, rs1p, rdp, imm);
    case CSw(rs1p, rs2p, imm) => HalfOfCL(6, rs1p, rs2p, imm);
  }

  lemma Half1(c: Rvc)
    requires c.CAddi? || c.CJal? || c.CLi? || c.CAddi16sp? || c.CLui?
    ensures IsHalf(Layout(c))
  {
    hide IsHalf, LayoutCI, LayoutCJ, LayoutCB, LayoutCL, LayoutShift, LayoutCA, LayoutCR, LayoutAddi4spn, LayoutAddi16sp, LayoutLwsp, LayoutSwsp, Reg;
    match c
    case CAddi(rd, imm) => HalfOfCI(0, rd, imm, 1);
    case CJal(imm) => HalfOfCJ(1, imm);
    case CLi(rd, imm) => HalfOfCI(2, rd, imm, 1);
    case CAddi16sp(imm) => HalfOfStack(0, 0, imm);
    case CLui(rd, imm) => HalfOfCI(3, rd, imm, 1);
  }

  lemma Half2(c: Rvc)
    requires c.CSrli? || c.CSrai? || c.CAndi? || c.CSub? || c.CXor? || c.COr? || c.CAnd?
    ensures IsHalf(Layout(c))
  {
    hide IsHalf, LayoutCI, LayoutCJ, LayoutCB, LayoutCL, LayoutShift, LayoutCA, LayoutCR, LayoutAddi4spn, LayoutAddi16sp, LayoutLwsp, LayoutSwsp, Reg;
    match c
    case CSrli(rdp, shamt) => HalfOfShift(0, rdp, Reg(shamt));
    case CSrai(rdp, shamt) => HalfOfShift(1, rdp, Reg(shamt));
    case CAndi(rdp, imm) => HalfOfShift(2, rdp, imm);
    case CSub(rdp, rs2p) => HalfOfCA(0, rdp, rs2p);
    case CXor(rdp, rs2p) => HalfOfCA(1, rdp, rs2p);
    case COr(rdp, rs2p) => HalfOfCA(2, rdp, rs2p);
    case CAnd(rdp, rs2p) => HalfOfCA(3, rdp, rs2p);
  }

  lemma Half3(c: Rvc)
    requires c.CJ? || c.CBeqz? || c.CBnez? || c.CSlli? || c.CLwsp?
    ensures IsHalf(Layout(c))
  {
    hide IsHalf, LayoutCI, LayoutCJ, LayoutCB, LayoutCL, LayoutShift, LayoutCA, LayoutCR, LayoutAddi4spn, LayoutAddi16sp, LayoutLwsp, LayoutSwsp, Reg;
    match c
    case CJ(imm) => HalfOfCJ(5, imm);
    case CBeqz(rs1p, imm) => HalfOfCB(6, rs1p, imm);
    case CBnez(rs1p, imm) => HalfOfCB(7, rs1p, imm);
    case CSlli(rd, shamt) => HalfOfCI(0, rd, Reg(shamt), 2);
    case CLwsp(rd, imm) => HalfOfStack(0, rd, imm);
  }

  lemma Half4(c: Rvc)
    requires c.CJr? || c.CMv? || c.CEbreak? || c.CJalr? || c.CAdd? || c.CSwsp?
    ensures IsHalf(Layout(c))
  {
    hide IsHalf, LayoutCI, LayoutCJ, LayoutCB, LayoutCL, LayoutShift, LayoutCA, LayoutCR, LayoutAddi4spn, LayoutAddi16sp, LayoutLwsp, LayoutSwsp, Reg;
    match c
    case CJr(rs1) => HalfOfCR(0, rs1, 0);
    case CMv(rd, rs2) => HalfOfCR(0, rd, rs2);
    case CEbreak => HalfOfCR(1, 0, 0);
    case CJalr(rs1) => HalfOfCR(1, rs1, 0);
    case CAdd(rd, rs2) => HalfOfCR(1, rd, rs2);
    case CSwsp(rs2, imm) => HalfOfStack(0, rs2, imm);
  }

  lemma LayoutIsHalf(c: Rvc)
    ensures IsHalf(Layout(c))
  {
    hide IsHalf, Layout;
    if c.CAddi4spn? || c.CLw? || c.CSw? {
      Half0(c);
    } else if c.CAddi? || c.CJal? || c.CLi? || c.CAddi16sp? || c.CLui? {
      Half1(c);
    } else if c.CSrli? || c.CSrai? || c.CAndi? || c.CSub? || c.CXor? || c.COr? || c.CAnd? {
      Half2(c);
    } else if c.CJ? || c.CBeqz? || c.CBnez? || c.CSlli? || c.CLwsp? {
      Half3(c);
    } else {
      Half4(c);
    }
  }

  /** The halfword of a form. */
  function Encode16(c: Rvc): bv16 {
    (Layout(c) & 0xFFFF) as bv16
  }

  predicate StartsWith(raw: bv32, half: bv32) {
    raw & 0xFFFF == half
  }

  lemma RawExpands(raw: bv32, x: bv32)
    requires StartsWith(raw, x) && IsHalf(x)
    ensures IsCompressed(raw) && Expand(raw) == Quadrants(x)
    ensures Decompress((x & 0xFFFF) as bv16) == Quadrants(x)
  {
    RawBits(raw, x);
    hide StartsWith, IsHalf, IsCompressed, Quadrants;
  }

  lemma RawBits(raw: bv32, x: bv32)
    requires StartsWith(raw, x) && IsHalf(x)
    ensures IsCompressed(raw) && ((raw & 0xFFFF) as bv16) as bv32 == x && ((x & 0xFFFF) as bv16) as bv32 == x
  {
  }

  /** The expander undoes the layout: the word it returns for a legal form decodes to the
      instruction chapter 16 gives for it. */
  lemma ExpansionDecodes(c: Rvc)
    requires Legal(c)
    ensures Decode(Decompress(Encode16(c))) == Meaning(c) && Decompress(Encode16(c)) != 0
  {
    LayoutIsHalf(c);
    MeaningLegal(c);
    hide Decode, Quadrants, Layout, Legal, Meaning, IsHalf, Decompress;
    FormExpands(c);
    SelfStart(Layout(c));
    RawExpands(Layout(c), Layout(c));
    Assembler.LegalWords(Quadrants(Layout(c)));
  }

  lemma SelfStart(x: bv32)
    requires IsHalf(x)
    ensures StartsWith(x, x)
  {
  }

  lemma MeaningLegal(c: Rvc)
    ensures Meaning(c) != Illegal
  {
  }

  lemma RawMeans(c: Rvc, raw: bv32)
    requires Legal(c) && StartsWith(raw, Layout(c))
    ensures Expand(raw) == Decompress(Encode16(c)) && IsCompressed(raw)
  {
    hide Quadrants, Layout, Legal, IsHalf, Decompress, StartsWith, Expand, IsCompressed;
    LayoutIsHalf(c);
    RawExpands(raw, Layout(c));
  }

  /** On every CPU state whose fetched word starts with a legal form, whatever follows it, the turn
      executes that instruction, with pc + 2 as the fall-through and link address where the 32-bit
      form has pc + 4. */
  lemma CompressedExecutes(s: State, c: Rvc, raw: bv32, m: Bus.Mem)
    requires Legal(c) && StartsWith(raw, Layout(c))
    requires Bus.Read32(s.mem, HartOf(s), s.pc, true) == Bus.Done(raw, m)
    ensures Executing(s) == Mmio.Some((s.(mem := m, nextPc := s.pc + 2), Meaning(c), Decompress(Encode16(c))))
  {
    hide Bus.Read32, HartOf, Decode, Expand, Layout, Legal, Meaning, StartsWith, IsCompressed, Decompress, Encode16;
    RawMeans(c, raw);
    ExpansionDecodes(c);
  }
}
