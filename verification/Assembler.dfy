/** The assembler from parsed operands to instruction words, and its agreement with the decoder. */
module Assembler {
  import opened Compressed
  import opened Formats
  import opened Interrupts
  import opened Isa
  import opened Machine
  import opened Words
  import AluLaws
  import Bus
  import Mmio
  import Ranges

  /** An instruction line after its operands were parsed: register numbers, and immediates as the
      32-bit integers the parser returns. `arg` is a register number or a CSR immediate. */
  datatype Line =
    | RLine(rop: ROp, rd: bv5, rs1: bv5, rs2: bv5)
    | LrLine(rd: bv5, rs1: bv5)
    | ScLine(rd: bv5, rs2: bv5, rs1: bv5)
    | AmoLine(amo: AmoOp, rd: bv5, rs2: bv5, rs1: bv5)
    | BLine(bop: BOp, rs1: bv5, rs2: bv5, imm: bv32)
    | JalLine(rd: bv5, imm: bv32)
    | LuiLine(rd: bv5, imm: bv32)
    | AuipcLine(rd: bv5, imm: bv32)
    | ILine(iop: IOp, rd: bv5, rs1: bv5, imm: bv32)
    | LLine(lop: LOp, rd: bv5, imm: bv32, rs1: bv5)
    | JalrLine(rd: bv5, imm: bv32, rs1: bv5)
    | SLine(sop: SOp, rs2: bv5, imm: bv32, rs1: bv5)
    | CsrLine(cop: COp, rd: bv5, csr: bv32, arg: bv32)
    | EcallLine
    | EbreakLine
    | MretLine
    | SretLine
    | SfenceLine(rs1: bv5, rs2: bv5)

  // ----- encoders ---------------------------------------------------------------

  function EncodeR(funct7: bv32, rs2: bv5, rs1: bv5, funct3: bv32, rd: bv5, opcode: bv32): bv32 {
    (funct7 << 25) | (Reg(rs2) << 20) | (Reg(rs1) << 15) | (funct3 << 12) | (Reg(rd) << 7) | opcode
  }

  /** The cast of an `int` to `int16_t` and on to `uint16_t`, widened again. */
  function Low16(imm: bv32): bv32 {
    imm & 0xFFFF
  }

  function EncodeB(imm: bv32, rs2: bv5, rs1: bv5, funct3: bv32, opcode: bv32): bv32 {
    var imm12 := Low16(imm);
    (((imm12 >> 12) & 0x1) << 31) | (((imm12 >> 5) & 0x3F) << 25) | (Reg(rs2) << 20) | (Reg(rs1) << 15)
    | ((funct3 & 0x07) << 12) | (((imm12 >> 1) & 0x0F) << 8) | (((imm12 >> 11) & 0x1) << 7) | (opcode & 0x7F)
  }

  function EncodeJ(imm: bv32, rd: bv5, opcode: bv32): bv32 {
    (((imm >> 20) & 0x1) << 31) | (((imm >> 1) & 0x3FF) << 21) | (((imm >> 11) & 0x1) << 20)
    | (((imm >> 12) & 0xFF) << 12) | (Reg(rd) << 7) | (opcode & 0x7F)
  }

  function EncodeU(imm: bv32, rd: bv5, opcode: bv32): bv32 {
    (imm & 0xFFFF_F000) | (Reg(rd) << 7) | (opcode & 0x7F)
  }

  function EncodeI(imm: bv32, rs1: bv5, funct3: bv32, rd: bv5, opcode: bv32): bv32 {
    ((Low16(imm) & 0xFFF) << 20) | (Reg(rs1) << 15) | ((funct3 & 0x07) << 12) | (Reg(rd) << 7) | (opcode & 0x7F)
  }

  function EncodeShift(shamt: bv32, rs1: bv5, funct3: bv32, rd: bv5, funct7: bv32, opcode: bv32): bv32 {
    ((funct7 & 0x7F) << 25) | ((shamt & 0x1F) << 20) | (Reg(rs1) << 15) | ((funct3 & 0x07) << 12) | (Reg(rd) << 7) | (opcode & 0x7F)
  }

  function EncodeS(imm: bv32, rs1: bv5, rs2: bv5, funct3: bv32, opcode: bv32): bv32 {
    var imm12 := Low16(imm);
    (((imm12 >> 5) & 0x7F) << 25) | (Reg(rs2) << 20) | (Reg(rs1) << 15) | ((funct3 & 0x07) << 12)
    | ((imm12 & 0x1F) << 7) | (opcode & 0x7F)
  }

  function EncodeSystem(csr: bv32, arg: bv32, funct3: bv32, rd: bv5): bv32 {
    ((csr & 0xFFF) << 20) | ((arg & 0x1F) << 15) | ((funct3 & 0x7) << 12) | (Reg(rd) << 7) | 0x73
  }

  // ----- the tables of the mnemonics ------------------------------------------------

  function RFunct3(op: ROp): bv32 {
    match op
    case ADD | SUB | MUL => 0
    case SLL | MULH => 1
    case SLT | MULHSU => 2
    case SLTU | MULHU => 3
    case XOR | DIV => 4
    case SRL | SRA | DIVU => 5
    case OR | REM => 6
    case AND | REMU => 7
  }

  function RFunct7(op: ROp): bv32 {
    match op
    case SUB | SRA => 0x20
    case MUL | MULH | MULHSU | MULHU | DIV | DIVU | REM | REMU => 1
    case _ => 0
  }

  function AmoFunct7(op: AmoOp): bv32 {
    match op
    case AMOADD => 0x00 << 2
    case AMOSWAP => 0x01 << 2
    case AMOXOR => 0x04 << 2
    case AMOOR => 0x08 << 2
    case AMOAND => 0x0C << 2
    case AMOMIN => 0x10 << 2
    case AMOMAX => 0x14 << 2
    case AMOMINU => 0x18 << 2
    case AMOMAXU => 0x1C << 2
  }

  function BFunct3(op: BOp): bv32 {
    match op case BEQ => 0 case BNE => 1 case BLT => 4 case BGE => 5 case BLTU => 6 case BGEU => 7
  }

  predicate IsShiftImmediate(op: IOp) {
    op.SLLI? || op.SRLI? || op.SRAI?
  }

  function IFunct3(op: IOp): bv32 {
    match op
    case ADDI => 0
    case SLLI => 1
    case SLTI => 2
    case SLTIU => 3
    case XORI => 4
    case SRLI | SRAI => 5
    case ORI => 6
    case ANDI => 7
  }

  function LFunct3(op: LOp): bv32 {
    match op case LB => 0 case LH => 1 case LW => 2 case LBU => 4 case LHU => 5
  }

  function SFunct3(op: SOp): bv32 {
    match op case SB => 0 case SH => 1 case SW => 2
  }

  function CFunct3(op: COp): bv32 {
    match op case CSRRW => 1 case CSRRS => 2 case CSRRC => 3 case CSRRWI => 5 case CSRRSI => 6 case CSRRCI => 7
  }

  // ----- assembling --------------------------------------------------------------------

  predicate InRange(imm: bv32, low: int, high: int) {
    low <= ToInt(imm) <= high
  }

  /** The range checks on the operands. */
  predicate Accepts(l: Line) {
    match l
    case BLine(_, _, _, imm) => ToInt(imm) % 2 == 0 && InRange(imm, -4096, 4094)
    case JalLine(_, imm) => ToInt(imm) % 2 == 0 && InRange(imm, -1048576, 1048574)
    case ILine(op, _, _, imm) => if IsShiftImmediate(op) then InRange(imm, 0, 31) else InRange(imm, -2048, 2047)
    case LLine(_, _, imm, _) => InRange(imm, -2048, 2047)
    case JalrLine(_, imm, _) => InRange(imm, -2048, 2047)
    case SLine(_, _, imm, _) => InRange(imm, -2048, 2047)
    case CsrLine(_, _, csr, arg) => csr <= 0xFFF && arg <= 31
    case _ => true
  }

  /** An upper immediate keeps its low 20 bits. */
  function Upper(imm: bv32): bv32 {
    (if imm > 0xF_FFFF then imm & 0xF_FFFF else imm) << 12
  }

  function Encode(l: Line): bv32 {
    match l
    case RLine(op, rd, rs1, rs2) => EncodeR(RFunct7(op), rs2, rs1, RFunct3(op), rd, 0x33)
    case LrLine(rd, rs1) => EncodeR(0x2 << 2, 0, rs1, 0x2, rd, 0x2F)
    case ScLine(rd, rs2, rs1) => EncodeR(0x3 << 2, rs2, rs1, 0x2, rd, 0x2F)
    case AmoLine(op, rd, rs2, rs1) => EncodeR(AmoFunct7(op), rs2, rs1, 0x2, rd, 0x2F)
    case BLine(op, rs1, rs2, imm) => EncodeB(imm, rs2, rs1, BFunct3(op), 0x63)
    case JalLine(rd, imm) => EncodeJ(imm, rd, 0x6F)
    case LuiLine(rd, imm) => EncodeU(Upper(imm), rd, 0x37)
    case AuipcLine(rd, imm) => EncodeU(Upper(imm), rd, 0x17)
    case ILine(op, rd, rs1, imm) =>
      if IsShiftImmediate(op) then EncodeShift(imm, rs1, IFunct3(op), rd, if op.SRAI? then 0x20 else 0, 0x13)
      else EncodeI(imm, rs1, IFunct3(op), rd, 0x13)
    case LLine(op, rd, imm, rs1) => EncodeI(imm, rs1, LFunct3(op), rd, 0x03)
    case JalrLine(rd, imm, rs1) => EncodeI(imm, rs1, 0x0, rd, 0x67)
    case SLine(op, rs2, imm, rs1) => EncodeS(imm, rs1, rs2, SFunct3(op), 0x23)
    case CsrLine(op, rd, csr, arg) => EncodeSystem(csr, arg, CFunct3(op), rd)
    case EcallLine => 0x0000_0073
    case EbreakLine => 0x0010_0073
    case MretLine => 0x3020_0073
    case SretLine => 0x1020_0073
    case SfenceLine(rs1, rs2) => 0x1200_0073 | (Reg(rs1) << 15) | (Reg(rs2) << 20)
  }

  /** The word of a line; 0 reports a rejected one. */
  function Assemble(l: Line): bv32 {
    if Accepts(l) then Encode(l) else 0
  }

  /** The instruction a line names. */
  function UpperField(imm: bv32): bv32 {
    imm << 12
  }

  function ArgField(arg: bv32): bv5 {
    (arg & 0x1F) as bv5
  }

  function CsrNumber(csr: bv32): bv12 {
    (csr & 0xFFF) as bv12
  }

  function Meaning(l: Line): Instr {
    match l
    case RLine(op, rd, rs1, rs2) => Register(op, rd, rs1, rs2)
    case LrLine(rd, rs1) => LoadReserved(rd, rs1)
    case ScLine(rd, rs2, rs1) => StoreConditional(rd, rs1, rs2)
    case AmoLine(op, rd, rs2, rs1) => Amo(op, rd, rs1, rs2)
    case BLine(op, rs1, rs2, imm) => Branch(op, rs1, rs2, imm)
    case JalLine(rd, imm) => Jal(rd, imm)
    case LuiLine(rd, imm) => Lui(rd, UpperField(imm))
    case AuipcLine(rd, imm) => Auipc(rd, UpperField(imm))
    case ILine(op, rd, rs1, imm) => Immediate(op, rd, rs1, imm)
    case LLine(op, rd, imm, rs1) => Load(op, rd, rs1, imm)
    case JalrLine(rd, imm, rs1) => Jalr(rd, rs1, imm)
    case SLine(op, rs2, imm, rs1) => Store(op, rs1, rs2, imm)
    case CsrLine(op, rd, csr, arg) => CsrAccess(op, rd, ArgField(arg), CsrNumber(csr))
    case EcallLine => Ecall
    case EbreakLine => Ebreak
    case MretLine => Mret
    case SretLine => Sret
    case SfenceLine(_, _) => SfenceVma
  }

  // ----- the encoders put the fields where the decoder looks ---------------------------

  lemma SameR(funct7: bv32, rs2: bv5, rs1: bv5, funct3: bv32, rd: bv5, opcode: bv32)
    ensures EncodeR(funct7, rs2, rs1, funct3, rd, opcode) == BuildR(opcode, funct3, funct7, Reg(rd), Reg(rs1), Reg(rs2))
  {
  }

  lemma SameI(imm: bv32, rs1: bv5, funct3: bv32, rd: bv5, opcode: bv32)
    requires IsOpcode(opcode) && IsFunct3(funct3)
    ensures EncodeI(imm, rs1, funct3, rd, opcode) == BuildI(opcode, funct3, Reg(rd), Reg(rs1), imm)
  {
  }

  lemma SameS(imm: bv32, rs1: bv5, rs2: bv5, funct3: bv32, opcode: bv32)
    requires IsOpcode(opcode) && IsFunct3(funct3)
    ensures EncodeS(imm, rs1, rs2, funct3, opcode) == BuildS(opcode, funct3, Reg(rs1), Reg(rs2), imm)
  {
  }

  lemma SameB(imm: bv32, rs2: bv5, rs1: bv5, funct3: bv32, opcode: bv32)
    requires IsOpcode(opcode) && IsFunct3(funct3)
    ensures EncodeB(imm, rs2, rs1, funct3, opcode) == BuildB(opcode, funct3, Reg(rs1), Reg(rs2), imm)
  {
  }

  lemma SameJ(imm: bv32, rd: bv5, opcode: bv32)
    requires IsOpcode(opcode)
    ensures EncodeJ(imm, rd, opcode) == BuildJ(opcode, Reg(rd), imm)
  {
  }

  lemma SameU(imm: bv32, rd: bv5)
    ensures EncodeU(imm, rd, 0x37) == BuildU(0x37, Reg(rd), imm)
    ensures EncodeU(imm, rd, 0x17) == BuildU(0x17, Reg(rd), imm)
  {
  }

  /** A shift is the I format with funct7 above the amount. */
  lemma SameShift(shamt: bv32, rs1: bv5, funct3: bv32, rd: bv5, funct7: bv32, opcode: bv32)
    requires IsOpcode(opcode) && IsFunct3(funct3) && Ranges.Fits5(shamt) && (funct7 == 0 || funct7 == 0x20)
    ensures EncodeShift(shamt, rs1, funct3, rd, funct7, opcode)
         == BuildI(opcode, funct3, Reg(rd), Reg(rs1), shamt | (funct7 << 5))
  {
  }

  lemma SameSystem(csr: bv32, arg: bv32, funct3: bv32, rd: bv5)
    requires csr <= 0xFFF && arg <= 31 && IsFunct3(funct3)
    ensures EncodeSystem(csr, arg, funct3, rd) == BuildI(0x73, funct3, Reg(rd), Reg(ArgField(arg)), csr)
  {
  }

  // ----- decoding a built word -----------------------------------------------------------

  lemma DecodesR(op: ROp, rd: bv5, rs1: bv5, rs2: bv5)
    ensures Decode(BuildR(0x33, RFunct3(op), RFunct7(op), Reg(rd), Reg(rs1), Reg(rs2))) == Register(op, rd, rs1, rs2)
  {
    OfR(0x33, RFunct3(op), RFunct7(op), rd, rs1, rs2);
    hide Opcode, Funct3, Funct7, Rd, Rs1, Rs2, BuildR, Reg;
  }

  predicate IsAtomicOp(f5: bv32) {
    f5 < 0x20
  }

  lemma AtomicWord(f5: bv32, rd: bv5, rs1: bv5, rs2: bv5)
    requires IsAtomicOp(f5)
    ensures var w := BuildR(0x2F, 2, f5 << 2, Reg(rd), Reg(rs1), Reg(rs2));
      Opcode(w) == 0x2F && Funct3(w) == 2 && Funct7(w) >> 2 == f5 && Rd(w) == rd && Rs1(w) == rs1 && Rs2(w) == rs2
  {
    AtomicCodes(f5);
    hide Opcode, Funct3, Funct7, Rd, Rs1, Rs2, BuildR, Reg;
    OfR(0x2F, 2, f5 << 2, rd, rs1, rs2);
  }

  lemma AtomicCodes(f5: bv32)
    requires IsAtomicOp(f5)
    ensures IsOpcode(f5 << 2) && (f5 << 2) >> 2 == f5
  {
  }

  lemma DecodesLr(rd: bv5, rs1: bv5)
    ensures Decode(BuildR(0x2F, 2, 0x2 << 2, Reg(rd), Reg(rs1), Reg(0))) == LoadReserved(rd, rs1)
  {
    AtomicWord(0x2, rd, rs1, 0);
    hide Opcode, Funct3, Funct7, Rd, Rs1, Rs2, BuildR, Reg;
  }

  lemma DecodesSc(rd: bv5, rs1: bv5, rs2: bv5)
    ensures Decode(BuildR(0x2F, 2, 0x3 << 2, Reg(rd), Reg(rs1), Reg(rs2))) == StoreConditional(rd, rs1, rs2)
  {
    AtomicWord(0x3, rd, rs1, rs2);
    hide Opcode, Funct3, Funct7, Rd, Rs1, Rs2, BuildR, Reg;
  }

  function AmoFunct5(op: AmoOp): bv32 {
    match op
    case AMOADD => 0x00
    case AMOSWAP => 0x01
    case AMOXOR => 0x04
    case AMOOR => 0x08
    case AMOAND => 0x0C
    case AMOMIN => 0x10
    case AMOMAX => 0x14
    case AMOMINU => 0x18
    case AMOMAXU => 0x1C
  }

  lemma DecodesAmo(op: AmoOp, rd: bv5, rs1: bv5, rs2: bv5)
    ensures Decode(BuildR(0x2F, 2, AmoFunct7(op), Reg(rd), Reg(rs1), Reg(rs2))) == Amo(op, rd, rs1, rs2)
  {
    assert AmoFunct7(op) == AmoFunct5(op) << 2;
    AtomicWord(AmoFunct5(op), rd, rs1, rs2);
    hide Opcode, Funct3, Funct7, Rd, Rs1, Rs2, BuildR, Reg;
  }

  lemma DecodesB(op: BOp, rs1: bv5, rs2: bv5, imm: bv32)
    requires Fits13(imm)
    ensures Decode(BuildB(0x63, BFunct3(op), Reg(rs1), Reg(rs2), imm)) == Branch(op, rs1, rs2, imm)
  {
    OfB(0x63, BFunct3(op), rs1, rs2, imm);
    ImmOfB(0x63, BFunct3(op), rs1, rs2, imm);
    hide Opcode, Funct3, Rs1, Rs2, ImmB, BuildB, Reg, Fits13;
  }

  lemma DecodesJ(rd: bv5, imm: bv32)
    requires Fits21(imm)
    ensures Decode(BuildJ(0x6F, Reg(rd), imm)) == Jal(rd, imm)
  {
    OfJ(0x6F, rd, imm);
    ImmOfJ(0x6F, rd, imm);
    hide Opcode, Rd, ImmJ, BuildJ, Reg, Fits21;
  }

  predicate IsUpper(imm: bv32) {
    imm & 0xFFF == 0
  }

  lemma UpperKept(imm: bv32)
    requires IsUpper(imm)
    ensures imm & 0xFFFF_F000 == imm
  {
  }

  lemma DecodesU(rd: bv5, imm: bv32)
    requires IsUpper(imm)
    ensures Decode(BuildU(0x37, Reg(rd), imm)) == Lui(rd, imm)
    ensures Decode(BuildU(0x17, Reg(rd), imm)) == Auipc(rd, imm)
  {
    OfU(0x37, rd, imm);
    OfU(0x17, rd, imm);
    UpperKept(imm);
    hide Opcode, Rd, ImmU, BuildU, Reg, IsUpper;
  }

  lemma DecodesLoad(op: LOp, rd: bv5, rs1: bv5, imm: bv32)
    requires Fits12(imm)
    ensures Decode(BuildI(0x03, LFunct3(op), Reg(rd), Reg(rs1), imm)) == Load(op, rd, rs1, imm)
  {
    OfI(0x03, LFunct3(op), rd, rs1, imm);
    ImmOfI(0x03, LFunct3(op), rd, rs1, imm);
    hide Opcode, Funct3, Rd, Rs1, ImmI, BuildI, Reg, Fits12;
  }

  lemma DecodesJalr(rd: bv5, rs1: bv5, imm: bv32)
    requires Fits12(imm)
    ensures Decode(BuildI(0x67, 0, Reg(rd), Reg(rs1), imm)) == Jalr(rd, rs1, imm)
  {
    OfI(0x67, 0, rd, rs1, imm);
    ImmOfI(0x67, 0, rd, rs1, imm);
    hide Opcode, Funct3, Rd, Rs1, ImmI, BuildI, Reg, Fits12;
  }

  lemma DecodesStore(op: SOp, rs1: bv5, rs2: bv5, imm: bv32)
    requires Fits12(imm)
    ensures Decode(BuildS(0x23, SFunct3(op), Reg(rs1), Reg(rs2), imm)) == Store(op, rs1, rs2, imm)
  {
    OfS(0x23, SFunct3(op), rs1, rs2, imm);
    ImmOfS(0x23, SFunct3(op), rs1, rs2, imm);
    hide Opcode, Funct3, Rs1, Rs2, ImmS, BuildS, Reg, Fits12;
  }

  lemma DecodesImmediate(op: IOp, rd: bv5, rs1: bv5, imm: bv32)
    requires Fits12(imm) && !IsShiftImmediate(op)
    ensures Decode(BuildI(0x13, IFunct3(op), Reg(rd), Reg(rs1), imm)) == Immediate(op, rd, rs1, imm)
  {
    OfI(0x13, IFunct3(op), rd, rs1, imm);
    ImmOfI(0x13, IFunct3(op), rd, rs1, imm);
    hide Opcode, Funct3, Rd, Rs1, ImmI, BuildI, Reg, Fits12, GetBits;
  }

  /** The amount and the bit that tells SRAI from SRLI. */
  lemma ShiftFields(f3: bv32, rd: bv5, rs1: bv5, amount: bv32)
    requires IsFunct3(f3) && Ranges.Fits5(amount)
    ensures var w := BuildI(0x13, f3, Reg(rd), Reg(rs1), amount);
      GetBits(w, 30, 30) == 0 && GetBits(ImmI(w), 0, 4) == amount
    ensures var w := BuildI(0x13, f3, Reg(rd), Reg(rs1), amount | 0x400);
      GetBits(w, 30, 30) == 1 && GetBits(ImmI(w), 0, 4) == amount
  {
  }

  lemma DecodesShift(op: IOp, rd: bv5, rs1: bv5, amount: bv32)
    requires Ranges.Fits5(amount) && IsShiftImmediate(op)
    ensures Decode(BuildI(0x13, IFunct3(op), Reg(rd), Reg(rs1), if op.SRAI? then amount | 0x400 else amount))
         == Immediate(op, rd, rs1, amount)
  {
    ShiftFields(IFunct3(op), rd, rs1, amount);
    OfI(0x13, IFunct3(op), rd, rs1, amount);
    OfI(0x13, IFunct3(op), rd, rs1, amount | 0x400);
    hide Opcode, Funct3, Rd, Rs1, ImmI, BuildI, Reg, Ranges.Fits5, GetBits;
  }

  lemma CsrField(f3: bv32, rd: bv5, rs1: bv5, csr: bv32)
    requires IsFunct3(f3)
    ensures GetBits(BuildI(0x73, f3, Reg(rd), Reg(rs1), csr), 20, 31) == csr & 0xFFF
  {
  }

  lemma LowOfImmI(w: bv32)
    ensures ImmI(w) & 0xFFF == GetBits(w, 20, 31)
  {
  }

  lemma SystemImm(f3: bv32, rd: bv5, rs1: bv5, csr: bv32)
    requires IsFunct3(f3)
    ensures ImmI(BuildI(0x73, f3, Reg(rd), Reg(rs1), csr)) & 0xFFF == csr & 0xFFF
  {
    hide BuildI, ImmI, GetBits, Reg;
    CsrField(f3, rd, rs1, csr);
    LowOfImmI(BuildI(0x73, f3, Reg(rd), Reg(rs1), csr));
  }

  lemma DecodesCsr(op: COp, rd: bv5, rs1: bv5, csr: bv32)
    ensures Decode(BuildI(0x73, CFunct3(op), Reg(rd), Reg(rs1), csr)) == CsrAccess(op, rd, rs1, CsrNumber(csr))
  {
    SystemImm(CFunct3(op), rd, rs1, csr);
    OfI(0x73, CFunct3(op), rd, rs1, csr);
    hide Opcode, Funct3, Rd, Rs1, ImmI, BuildI, Reg, GetBits, Funct7;
  }

  lemma DecodesEcall()
    ensures Decode(0x0000_0073) == Ecall
  {
  }

  lemma DecodesEbreak()
    ensures Decode(0x0010_0073) == Ebreak
  {
  }

  lemma DecodesMret()
    ensures Decode(0x3020_0073) == Mret
  {
  }

  lemma DecodesSret()
    ensures Decode(0x1020_0073) == Sret
  {
  }

  lemma DecodesSfence(rs1: bv5, rs2: bv5)
    ensures Decode(0x1200_0073 | (Reg(rs1) << 15) | (Reg(rs2) << 20)) == SfenceVma
  {
    SfenceFields(rs1, rs2);
    hide Opcode, Funct3, Funct7, Reg;
  }

  lemma SfenceFields(rs1: bv5, rs2: bv5)
    ensures var w := 0x1200_0073 | (Reg(rs1) << 15) | (Reg(rs2) << 20);
      Opcode(w) == 0x73 && Funct3(w) == 0 && Funct7(w) == 0x09
  {
  }

  // ----- assembling agrees with decoding --------------------------------------------------

  lemma ZeroReg()
    ensures Reg(0) == 0
  {
  }

  lemma RegistersDecode(l: Line)
    requires l.RLine? || l.LrLine? || l.ScLine? || l.AmoLine?
    ensures Decode(Encode(l)) == Meaning(l)
  {
    hide Decode, EncodeR, BuildR, Reg;
    match l
    case RLine(op, rd, rs1, rs2) =>
      SameR(RFunct7(op), rs2, rs1, RFunct3(op), rd, 0x33);
      DecodesR(op, rd, rs1, rs2);
    case LrLine(rd, rs1) =>
      SameR(0x2 << 2, 0, rs1, 0x2, rd, 0x2F);
      DecodesLr(rd, rs1);
    case ScLine(rd, rs2, rs1) =>
      SameR(0x3 << 2, rs2, rs1, 0x2, rd, 0x2F);
      DecodesSc(rd, rs1, rs2);
    case AmoLine(op, rd, rs2, rs1) =>
      SameR(AmoFunct7(op), rs2, rs1, 0x2, rd, 0x2F);
      DecodesAmo(op, rd, rs1, rs2);
  }

  lemma UpperIs(imm: bv32)
    ensures Upper(imm) == imm << 12 && IsUpper(imm << 12)
  {
  }

  lemma UppersDecode(l: Line)
    requires l.LuiLine? || l.AuipcLine?
    ensures Decode(Encode(l)) == Meaning(l)
  {
    UpperIs(l.imm);
    hide Decode, EncodeU, BuildU, Reg, Upper, IsUpper;
    SameU(l.imm << 12, l.rd);
    DecodesU(l.rd, l.imm << 12);
  }

  lemma JumpsDecode(l: Line)
    requires l.BLine? || l.JalLine?
    requires Accepts(l)
    ensures Decode(Encode(l)) == Meaning(l)
  {
    hide Decode, EncodeB, EncodeJ, BuildB, BuildJ, Reg, ToInt, Fits13, Fits21;
    match l
    case BLine(op, rs1, rs2, imm) =>
      Ranges.RangeFits13(imm);
      SameB(imm, rs2, rs1, BFunct3(op), 0x63);
      DecodesB(op, rs1, rs2, imm);
    case JalLine(rd, imm) =>
      Ranges.RangeFits21(imm);
      SameJ(imm, rd, 0x6F);
      DecodesJ(rd, imm);
  }

  lemma ImmediatesDecode(l: Line)
    requires l.ILine? && !IsShiftImmediate(l.iop) && Accepts(l)
    ensures Decode(Encode(l)) == Meaning(l)
  {
    hide Decode, EncodeI, EncodeShift, BuildI, Reg, ToInt, Fits12;
    Ranges.RangeFits12(l.imm);
    SameI(l.imm, l.rs1, IFunct3(l.iop), l.rd, 0x13);
    DecodesImmediate(l.iop, l.rd, l.rs1, l.imm);
  }

  lemma ShiftWord(op: IOp, rd: bv5, rs1: bv5, amount: bv32)
    requires IsShiftImmediate(op) && Ranges.Fits5(amount)
    ensures EncodeShift(amount, rs1, IFunct3(op), rd, if op.SRAI? then 0x20 else 0, 0x13)
         == BuildI(0x13, IFunct3(op), Reg(rd), Reg(rs1), if op.SRAI? then amount | 0x400 else amount)
  {
    ShiftCode(amount);
    hide EncodeShift, BuildI, Reg, Ranges.Fits5;
    SameShift(amount, rs1, IFunct3(op), rd, if op.SRAI? then 0x20 else 0, 0x13);
  }

  lemma ShiftDecodes(op: IOp, rd: bv5, rs1: bv5, amount: bv32)
    requires IsShiftImmediate(op) && InRange(amount, 0, 31)
    ensures Decode(EncodeShift(amount, rs1, IFunct3(op), rd, if op.SRAI? then 0x20 else 0, 0x13)) == Immediate(op, rd, rs1, amount)
  {
    assert 0 <= ToInt(amount) <= 31;
    hide *;
    Ranges.RangeFits5(amount);
    ShiftWord(op, rd, rs1, amount);
    DecodesShift(op, rd, rs1, amount);
  }

  lemma ShiftsDecode(l: Line)
    requires l.ILine? && IsShiftImmediate(l.iop) && Accepts(l)
    ensures Decode(Encode(l)) == Meaning(l)
  {
    hide Decode, EncodeShift, InRange, IFunct3;
    ShiftDecodes(l.iop, l.rd, l.rs1, l.imm);
  }

  lemma ShiftCode(amount: bv32)
    ensures amount | (0x20 << 5) == amount | 0x400 && amount | (0 << 5) == amount
  {
  }

  lemma AccessesDecode(l: Line)
    requires l.LLine? || l.JalrLine? || l.SLine?
    requires Accepts(l)
    ensures Decode(Encode(l)) == Meaning(l)
  {
    hide Decode, EncodeI, EncodeS, BuildI, BuildS, Reg, ToInt, Fits12;
    Ranges.RangeFits12(l.imm);
    match l
    case LLine(op, rd, imm, rs1) =>
      SameI(imm, rs1, LFunct3(op), rd, 0x03);
      DecodesLoad(op, rd, rs1, imm);
    case JalrLine(rd, imm, rs1) =>
      SameI(imm, rs1, 0x0, rd, 0x67);
      DecodesJalr(rd, rs1, imm);
    case SLine(op, rs2, imm, rs1) =>
      SameS(imm, rs1, rs2, SFunct3(op), 0x23);
      DecodesStore(op, rs1, rs2, imm);
  }

  lemma CsrCode(op: COp)
    ensures IsFunct3(CFunct3(op))
  {
  }

  lemma CsrsDecode(l: Line)
    requires l.CsrLine? && Accepts(l)
    ensures Decode(Encode(l)) == Meaning(l)
  {
    hide Decode, EncodeSystem, BuildI, Reg, ArgField, CsrNumber, CFunct3;
    CsrCode(l.cop);
    SameSystem(l.csr, l.arg, CFunct3(l.cop), l.rd);
    DecodesCsr(l.cop, l.rd, ArgField(l.arg), l.csr);
  }

  lemma OthersDecode(l: Line)
    requires l.EcallLine? || l.EbreakLine? || l.MretLine? || l.SretLine? || l.SfenceLine?
    ensures Decode(Encode(l)) == Meaning(l)
  {
    hide Decode, Reg;
    DecodesEcall();
    DecodesEbreak();
    DecodesMret();
    DecodesSret();
    if l.SfenceLine? {
      DecodesSfence(l.rs1, l.rs2);
    }
  }

  lemma EncodedDecodes(l: Line)
    requires Accepts(l)
    ensures Decode(Encode(l)) == Meaning(l)
  {
    hide Decode, Encode, Accepts, Meaning, IsShiftImmediate;
    if l.RLine? || l.LrLine? || l.ScLine? || l.AmoLine? {
      RegistersDecode(l);
    } else if l.BLine? || l.JalLine? {
      JumpsDecode(l);
    } else if l.LuiLine? || l.AuipcLine? {
      UppersDecode(l);
    } else if l.ILine? {
      if IsShiftImmediate(l.iop) { ShiftsDecode(l); } else { ImmediatesDecode(l); }
    } else if l.LLine? || l.JalrLine? || l.SLine? {
      AccessesDecode(l);
    } else if l.CsrLine? {
      CsrsDecode(l);
    } else {
      OthersDecode(l);
    }
  }

  /** The all-zero word and compressed words decode to nothing. */
  lemma LegalWords(w: bv32)
    requires Decode(w) != Illegal
    ensures w != 0 && !IsCompressed(w)
  {
    LegalOpcode(w);
    OpcodeBits(w);
    hide Decode, Opcode, IsCompressed;
  }

  predicate IsKnown(opcode: bv32) {
    opcode == 0x33 || opcode == 0x2F || opcode == 0x63 || opcode == 0x13 || opcode == 0x03 || opcode == 0x67
    || opcode == 0x0F || opcode == 0x6F || opcode == 0x23 || opcode == 0x73 || opcode == 0x37 || opcode == 0x17
  }

  lemma LegalOpcode(w: bv32)
    requires Decode(w) != Illegal
    ensures IsKnown(Opcode(w))
  {
    hide Opcode, DecodeRegister, DecodeAtomic, DecodeBranch, DecodeImmediate, DecodeLoad, DecodeStore, DecodeSystem,
         DecodeFence;
  }

  lemma OpcodeBits(w: bv32)
    requires IsKnown(Opcode(w))
    ensures w != 0 && !IsCompressed(w)
  {
  }

  /** For every line: the word is 0 exactly when the range checks reject it; otherwise it is a
      32-bit instruction that decodes to the instruction the line names, operands included. */
  lemma AssembleThenDecode(l: Line)
    ensures Assemble(l) == 0 <==> !Accepts(l)
    ensures Accepts(l) ==> Decode(Assemble(l)) == Meaning(l) && Expand(Assemble(l)) == Assemble(l)
    ensures Accepts(l) ==> forall pc: bv32 :: FallThrough(pc, Assemble(l)) == pc + 4
  {
    MeaningLegal(l);
    hide Decode, Encode, Accepts, Meaning, IsCompressed, Expand, FallThrough;
    if Accepts(l) {
      EncodedDecodes(l);
      LegalWords(Encode(l));
      Uncompressed(Encode(l));
    }
  }

  // ----- what can be assembled --------------------------------------------------------------

  lemma DecodedFits(w: bv32)
    ensures Fits12(ImmI(w)) && Fits12(ImmS(w)) && Fits13(ImmB(w)) && Fits21(ImmJ(w)) && Ranges.Fits5(GetBits(ImmI(w), 0, 4))
  {
    FitsI(w);
    FitsS(w);
    FitsB(w);
    FitsJ(w);
    FitsAmount(ImmI(w));
    hide *;
  }

  lemma FitsI(w: bv32)
    ensures Fits12(ImmI(w))
  {
  }

  lemma FitsS(w: bv32)
    ensures Fits12(ImmS(w))
  {
  }

  lemma FitsB(w: bv32)
    ensures Fits13(ImmB(w))
  {
  }

  lemma FitsJ(w: bv32)
    ensures Fits21(ImmJ(w))
  {
  }

  lemma FitsAmount(imm: bv32)
    ensures Ranges.Fits5(GetBits(imm, 0, 4))
  {
  }

  /** The immediate is in the range of its format. */
  predicate InFormat(i: Instr) {
    match i
    case Branch(_, _, _, imm) => Fits13(imm)
    case Jal(_, imm) => Fits21(imm)
    case Load(_, _, _, imm) => Fits12(imm)
    case Store(_, _, _, imm) => Fits12(imm)
    case Jalr(_, _, imm) => Fits12(imm)
    case Immediate(op, _, _, imm) => if IsShiftImmediate(op) then Ranges.Fits5(imm) else Fits12(imm)
    case _ => true
  }

  lemma AccessInFormat(w: bv32)
    ensures InFormat(DecodeLoad(w)) && InFormat(DecodeStore(w)) && InFormat(DecodeBranch(w))
    ensures InFormat(Jalr(Rd(w), Rs1(w), ImmI(w))) && InFormat(Jal(Rd(w), ImmJ(w)))
  {
    DecodedFits(w);
    hide Funct3, Rd, Rs1, Rs2, GetBits, ImmI, ImmS, ImmB, ImmJ, Fits12, Fits13, Fits21, Ranges.Fits5;
  }

  lemma ImmediateInFormat(w: bv32)
    ensures InFormat(DecodeImmediate(w))
  {
    DecodedFits(w);
    hide Funct3, Rd, Rs1, GetBits, ImmI, ImmS, ImmB, ImmJ, Fits12, Fits13, Fits21, Ranges.Fits5;
  }

  lemma OtherInFormat(w: bv32)
    ensures InFormat(DecodeRegister(w)) && InFormat(DecodeFence(w))
    ensures InFormat(Lui(Rd(w), ImmU(w))) && InFormat(Auipc(Rd(w), ImmU(w))) && InFormat(Illegal)
  {
    hide Funct3, Funct7, Rd, Rs1, Rs2, ImmU, Fits12, Fits13, Fits21, Ranges.Fits5;
  }

  lemma AtomicInFormat(w: bv32)
    ensures InFormat(DecodeAtomic(w))
  {
    hide Funct3, Funct7, Rd, Rs1, Rs2, Fits12, Fits13, Fits21, Ranges.Fits5;
  }

  lemma SystemInFormat(w: bv32)
    ensures InFormat(DecodeSystem(w))
  {
    hide Funct3, Funct7, Rd, Rs1, GetBits, ImmI, Fits12, Fits13, Fits21, Ranges.Fits5;
  }

  /** Every immediate a word can express is in the range of its format. */
  lemma DecodedInFormat(w: bv32)
    ensures InFormat(Decode(w))
  {
    hide InFormat, Opcode, DecodeLoad, DecodeStore, DecodeBranch, DecodeImmediate, DecodeRegister, DecodeAtomic, DecodeFence,
         DecodeSystem, Rd, Rs1, ImmI, ImmJ, ImmU;
    AccessInFormat(w);
    ImmediateInFormat(w);
    OtherInFormat(w);
    AtomicInFormat(w);
    SystemInFormat(w);
  }

  lemma ShiftAccepted(l: Line)
    requires l.ILine? && IsShiftImmediate(l.iop) && InFormat(Meaning(l))
    ensures Accepts(l)
  {
    hide Ranges.Fits5, ToInt;
    Ranges.FitsRange5(l.imm);
  }

  lemma ImmediateAccepted(l: Line)
    requires l.ILine? && !IsShiftImmediate(l.iop) && InFormat(Meaning(l))
    ensures Accepts(l)
  {
    hide Fits12, ToInt;
    Ranges.RangeFits12(l.imm);
  }

  lemma AccessAccepted(l: Line)
    requires (l.LLine? || l.JalrLine? || l.SLine?) && InFormat(Meaning(l))
    ensures Accepts(l)
  {
    hide Fits12, ToInt;
    Ranges.RangeFits12(l.imm);
  }

  lemma JumpAccepted(l: Line)
    requires (l.BLine? || l.JalLine?) && InFormat(Meaning(l))
    ensures Accepts(l)
  {
    hide Fits13, Fits21, ToInt;
    Ranges.RangeFits13(l.imm);
    Ranges.RangeFits21(l.imm);
  }

  lemma OtherAccepted(l: Line)
    requires !(l.ILine? || l.LLine? || l.JalrLine? || l.SLine? || l.BLine? || l.JalLine? || l.CsrLine?)
    ensures Accepts(l)
  {
  }

  lemma ExpressibleAccepted(l: Line, w: bv32)
    requires !l.CsrLine? && Decode(w) == Meaning(l)
    ensures Accepts(l)
  {
    hide *;
    DecodedInFormat(w);
    if l.ILine? {
      if IsShiftImmediate(l.iop) { ShiftAccepted(l); } else { ImmediateAccepted(l); }
    } else if l.LLine? || l.JalrLine? || l.SLine? {
      AccessAccepted(l);
    } else if l.BLine? || l.JalLine? {
      JumpAccepted(l);
    } else {
      OtherAccepted(l);
    }
  }

  lemma FieldBounds()
    ensures ToNat(0xFFF) == 0xFFF && ToNat(31) == 31
  {
    assert ByteVal(0xFF) == 0xFF && ByteVal(0xF) == 0xF && ByteVal(0x1F) == 0x1F && ByteVal(0) == 0;
    hide ByteVal;
  }

  lemma CsrAccepted(l: Line)
    requires l.CsrLine?
    ensures Accepts(l) <==> ToNat(l.csr) < 0x1000 && ToNat(l.arg) < 0x20
  {
    FieldBounds();
    hide ToNat;
    AluLaws.UnsignedOrder(0xFFF, l.csr);
    AluLaws.UnsignedOrder(31, l.arg);
  }

  /** The range checks reject exactly the lines that cannot be assembled: a line is accepted if and only
      if some word decodes to the instruction it names; a CSR line, if and only if its CSR number and its
      argument fit their fields. */
  lemma AcceptsExactly(l: Line)
    ensures !l.CsrLine? ==> (Accepts(l) <==> exists w :: Decode(w) == Meaning(l))
    ensures l.CsrLine? ==> (Accepts(l) <==> ToNat(l.csr) < 0x1000 && ToNat(l.arg) < 0x20)
  {
    hide *;
    if l.CsrLine? {
      CsrAccepted(l);
    } else {
      if Accepts(l) {
        EncodedDecodes(l);
      }
      forall w | Decode(w) == Meaning(l)
        ensures Accepts(l)
      {
        ExpressibleAccepted(l, w);
      }
    }
  }

  lemma MeaningLegal(l: Line)
    ensures Meaning(l) != Illegal
  {
  }

  lemma Uncompressed(w: bv32)
    requires !IsCompressed(w)
    ensures Expand(w) == w && forall pc: bv32 :: FallThrough(pc, w) == pc + 4
  {
    hide IsCompressed, Decompress;
  }

  /** Lines that name the same instruction: an upper immediate counts by its low 20 bits, and the
      registers of SFENCE.VMA do not count. */
  predicate SameLine(l: Line, k: Line) {
    || l == k
    || (l.LuiLine? && k.LuiLine? && l.rd == k.rd && UpperField(l.imm) == UpperField(k.imm))
    || (l.AuipcLine? && k.AuipcLine? && l.rd == k.rd && UpperField(l.imm) == UpperField(k.imm))
    || (l.SfenceLine? && k.SfenceLine?)
  }

  lemma CsrOperands(l: Line, k: Line)
    requires l.CsrLine? && k.CsrLine? && Accepts(l) && Accepts(k)
    requires ArgField(l.arg) == ArgField(k.arg) && CsrNumber(l.csr) == CsrNumber(k.csr)
    ensures l.arg == k.arg && l.csr == k.csr
  {
  }

  lemma MeaningInjective(l: Line, k: Line)
    requires Accepts(l) && Accepts(k) && Meaning(l) == Meaning(k)
    ensures SameLine(l, k)
  {
    hide Accepts, UpperField, ArgField, CsrNumber;
    if l.CsrLine? && k.CsrLine? {
      CsrOperands(l, k);
    }
  }

  /** Distinct instructions get distinct words. */
  lemma AssembleInjective(l: Line, k: Line)
    requires Accepts(l) && Assemble(l) == Assemble(k)
    ensures SameLine(l, k)
  {
    hide Decode, Assemble, Accepts, Meaning, Expand, FallThrough, SameLine;
    AssembleThenDecode(l);
    AssembleThenDecode(k);
    MeaningInjective(l, k);
  }

  /** On every CPU state that fetches the word, the turn executes the instruction the line names. */
  lemma AssembledWordExecutes(s: State, l: Line, m: Bus.Mem)
    requires Accepts(l) && Bus.Read32(s.mem, HartOf(s), s.pc, true) == Bus.Done(Assemble(l), m)
    ensures Executing(s) == Mmio.Some((s.(mem := m, nextPc := s.pc + 4), Meaning(l), Assemble(l)))
  {
    AssembleThenDecode(l);
    hide Bus.Read32, HartOf, Decode, Expand, Accepts, Assemble, Meaning, FallThrough;
  }
}
