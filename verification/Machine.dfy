/** One hart with its CSRs and memory system: what each instruction, trap and step does. */
module Machine {
  import opened Words
  import opened Isa
  import Alu
  import Bus
  import Compressed
  import Csr
  import Mmio

  datatype State = State(
    regs: bv5 -> bv32,
    pc: bv32,
    nextPc: bv32,
    mode: Csr.Mode,
    csr: Csr.File,
    mem: Bus.Mem,
    reserved: bool,
    reservation: bv32)

  /** How the execution of one instruction ends. */
  datatype Outcome =
    | Next(state: State)
    | Rejected(state: State)
    | Fault(address: bv32, kind: Bus.AccessType, state: State)
    | Undefined

  /** How one turn of the step loop ends. */
  datatype Turn =
    | Running(state: State)
    | Halted(state: State)
    | NoMeaning

  const ILLEGAL_INSTRUCTION: bv32 := 2
  const BREAKPOINT: bv32 := 3
  const ECALL_USER: bv32 := 8
  const ECALL_SUPERVISOR: bv32 := 9
  const ECALL_MACHINE: bv32 := 11
  const INTERRUPT: bv32 := 0x8000_0000
  const RAM_BASE: bv32 := 0x8000_0000
  const STACK_TOP: bv32 := 0x8010_0000
  const TSR: bv32 := 0x0040_0000

  function SetRegister(regs: bv5 -> bv32, rd: bv5, value: bv32): bv5 -> bv32 {
    if rd == 0 then regs else r => if r == rd then value else regs(r)
  }

  /** What the memory system consults when this hart makes an access. */
  function HartOf(s: State): Bus.Hart {
    Bus.Hart(s.mode, s.csr(Csr.MSTATUS))
  }

  // ----- traps -------------------------------------------------------------

  /** A trap is delegated when it comes from S or U and its delegation bit is set. */
  predicate Delegated(s: State, cause: bv32) {
    s.mode <= Csr.SUPERVISOR
    && s.csr(if cause & INTERRUPT != 0 then Csr.MIDELEG else Csr.MEDELEG) & CauseBit(cause) != 0
  }

  function CauseBit(cause: bv32): bv32 {
    1 << ((cause & 0x1F) as bv5)
  }

  /** mstatus after a trap into S-mode from `mode`: SIE moves to SPIE, SPP records the mode. */
  function PushSupervisor(sstatus: bv32, mode: Csr.Mode): bv32 {
    (sstatus & !0x0000_0122) | (((sstatus >> 1) & 1) << 5) | (((mode as bv32) & 1) << 8)
  }

  /** mstatus after a trap into M-mode from `mode`: MIE moves to MPIE, MPP records the mode. */
  function PushMachine(mstatus: bv32, mode: Csr.Mode): bv32 {
    (mstatus & !0x0000_1888) | (((mstatus >> 3) & 1) << 7) | ((mode as bv32) << 11)
  }

  function PopSupervisor(mstatus: bv32): bv32 {
    (mstatus & !0x0000_0122) | (((mstatus >> 5) & 1) << 1) | 0x0000_0020
  }

  function PopMachine(mstatus: bv32): bv32 {
    (mstatus & !0x0000_1888) | (((mstatus >> 7) & 1) << 3) | 0x0000_0080
  }

  /** The CSR writes of a trap into S-mode, in the order the source makes them. */
  function SupervisorTrapCsrs(s: State, cause: bv32, value: bv32): Csr.File {
    var f0 := if cause & INTERRUPT != 0 then Csr.Write(s.csr, Csr.SIP, CauseBit(cause)) else s.csr;
    var f1 := Csr.Write(f0, Csr.SEPC, s.pc);
    var f2 := Csr.Write(f1, Csr.SCAUSE, cause);
    var f3 := Csr.Write(f2, Csr.STVAL, value);
    Csr.Write(f3, Csr.SSTATUS, PushSupervisor(f3(Csr.MSTATUS) & Csr.SSTATUS_MASK, s.mode))
  }

  function MachineTrapCsrs(s: State, cause: bv32, value: bv32): Csr.File {
    var f1 := Csr.Write(s.csr, Csr.MEPC, s.pc);
    var f2 := Csr.Write(f1, Csr.MCAUSE, cause);
    var f3 := Csr.Write(f2, Csr.MTVAL, value);
    Csr.Write(f3, Csr.MSTATUS, PushMachine(f3(Csr.MSTATUS), s.mode))
  }

  /** `takeTrap`. */
  function TakeTrap(s: State, cause: bv32, value: bv32): State {
    if Delegated(s, cause) then
      var file := SupervisorTrapCsrs(s, cause, value);
      var handler := file(Csr.STVEC) & !3;
      s.(reserved := false, csr := file, mode := Csr.SUPERVISOR, pc := handler, nextPc := handler)
    else
      var file := MachineTrapCsrs(s, cause, value);
      var handler := file(Csr.MTVEC) & !3;
      s.(reserved := false, csr := file, mode := Csr.MACHINE, pc := handler, nextPc := handler)
  }

  /** `returnFromTrap(Supervisor)`. */
  function SupervisorReturn(s: State): State {
    var target, mstatus := s.csr(Csr.SEPC), s.csr(Csr.MSTATUS);
    s.(pc := target, nextPc := target, mode := ((mstatus >> 8) & 1) as bv2,
       csr := Csr.Write(s.csr, Csr.MSTATUS, PopSupervisor(mstatus)))
  }

  /** `returnFromTrap(Machine)`. */
  function MachineReturn(s: State): State {
    var target, mstatus := s.csr(Csr.MEPC), s.csr(Csr.MSTATUS);
    s.(pc := target, nextPc := target, mode := ((mstatus >> 11) & 3) as bv2,
       csr := Csr.Write(s.csr, Csr.MSTATUS, PopMachine(mstatus)))
  }

  // ----- reservations ------------------------------------------------------

  /** Byte ranges compared in 64 bits, so that an end past 2^32 does not wrap. */
  predicate Overlaps(store: bv32, size: bv64, reservation: bv32) {
    (store as bv64) < (reservation as bv64) + 4 && (store as bv64) + size > (reservation as bv64)
  }

  /** `notifyStore`, called with the virtual address of the store. */
  function NotifyStore(s: State, address: bv32, size: bv64): State {
    if s.reserved && Overlaps(address, size, s.reservation) then s.(reserved := false) else s
  }

  // ----- instructions ------------------------------------------------------

  function WriteRegister(s: State, rd: bv5, value: bv32): State {
    s.(regs := SetRegister(s.regs, rd, value))
  }

  /** The loaded value, extended to 32 bits. */
  function LoadAccess(m: Bus.Mem, h: Bus.Hart, op: LOp, address: bv32): Bus.Access<bv32> {
    match op
    case LB =>
      (match Bus.Read8(m, h, address)
       case PageFault(a, k, m1) => Bus.PageFault(a, k, m1)
       case Done(b, m1) => Bus.Done(Alu.SignExtend8(b), m1))
    case LBU =>
      (match Bus.Read8(m, h, address)
       case PageFault(a, k, m1) => Bus.PageFault(a, k, m1)
       case Done(b, m1) => Bus.Done(b as bv32, m1))
    case LH =>
      (match Bus.Read16(m, h, address)
       case PageFault(a, k, m1) => Bus.PageFault(a, k, m1)
       case Done(half, m1) => Bus.Done(Alu.SignExtend16(half), m1))
    case LHU => Bus.Read16(m, h, address)
    case LW => Bus.Read32(m, h, address, false)
  }

  function ExecLoad(s: State, op: LOp, rd: bv5, address: bv32): Outcome {
    match LoadAccess(s.mem, HartOf(s), op, address)
    case PageFault(a, k, m) => Fault(a, k, s.(mem := m))
    case Done(value, m) => Next(WriteRegister(s.(mem := m), rd, value))
  }

  function StoreSize(op: SOp): bv64 {
    match op case SB => 1 case SH => 2 case SW => 4
  }

  function StoreAccess(m: Bus.Mem, h: Bus.Hart, op: SOp, address: bv32, value: bv32): Bus.Access<()> {
    match op
    case SB => Bus.Write8(m, h, address, ByteOf(value, 0))
    case SH => Bus.Write16(m, h, address, value)
    case SW => Bus.Write32(m, h, address, value)
  }

  function ExecStore(s: State, op: SOp, address: bv32, value: bv32): Outcome {
    var s1 := NotifyStore(s, address, StoreSize(op));
    match StoreAccess(s1.mem, HartOf(s1), op, address, value)
    case PageFault(a, k, m) => Fault(a, k, s1.(mem := m))
    case Done(_, m) => Next(s1.(mem := m))
  }

  /** LR.W: the value is read, then the address is translated a second time. */
  function ExecLoadReserved(s: State, rd: bv5, address: bv32): Outcome {
    match Bus.Read32(s.mem, HartOf(s), address, false)
    case PageFault(a, k, m) => Fault(a, k, s.(mem := m))
    case Done(value, m) =>
      match Bus.Translate(m, HartOf(s), address, Bus.Load)
      case PageFault(a, k, m1) => Fault(a, k, s.(mem := m1))
      case Done(paddr, m1) =>
        Next(WriteRegister(s.(mem := m1, reserved := true, reservation := paddr), rd, value))
  }

  /** The store half of SC.W and the AMOs; rd is written only after the store went through. */
  function StoreThenWrite(s: State, rd: bv5, address: bv32, value: bv32, result: bv32): Outcome {
    match Bus.Write32(s.mem, HartOf(s), address, value)
    case PageFault(a, k, m) => Fault(a, k, s.(mem := m))
    case Done(_, m) => Next(WriteRegister(s.(mem := m), rd, result))
  }

  function ExecStoreConditional(s: State, rd: bv5, address: bv32, value: bv32): Outcome {
    match Bus.Translate(s.mem, HartOf(s), address, Bus.Load)
    case PageFault(a, k, m) => Fault(a, k, s.(mem := m))
    case Done(paddr, m) =>
      var s1 := s.(mem := m, reserved := false);
      if s.reserved && s.reservation == paddr then StoreThenWrite(s1, rd, address, value, 0)
      else Next(WriteRegister(s1, rd, 1))
  }

  function ExecAmo(s: State, op: AmoOp, rd: bv5, address: bv32, operand: bv32): Outcome {
    match Bus.Read32(s.mem, HartOf(s), address, false)
    case PageFault(a, k, m) => Fault(a, k, s.(mem := m))
    case Done(current, m) =>
      StoreThenWrite(NotifyStore(s.(mem := m), address, 4), rd, address, Alu.AmoResult(op, current, operand), current)
  }

  predicate IsImmediateForm(op: COp) {
    op.CSRRWI? || op.CSRRSI? || op.CSRRCI?
  }

  predicate WritesCsr(op: COp, rs1: bv5) {
    op.CSRRW? || op.CSRRWI? || rs1 != 0
  }

  function CsrOperand(s: State, op: COp, rs1: bv5): bv32 {
    if IsImmediateForm(op) then rs1 as bv32 else s.regs(rs1)
  }

  function CsrResult(op: COp, current: bv32, operand: bv32): bv32 {
    match op
    case CSRRW | CSRRWI => operand
    case CSRRS | CSRRSI => current | operand
    case CSRRC | CSRRCI => current & !operand
  }

  /** A CSR write; a write to satp is passed on to the memory system. */
  function PutCsr(s: State, a: bv12, value: bv32): State {
    var file := Csr.Write(s.csr, a, value);
    if a == Csr.SATP then s.(csr := file, mem := s.mem.(satp := Csr.Read(file, s.mem.dev.mtime, Csr.SATP)))
    else s.(csr := file)
  }

  function ExecCsr(s: State, op: COp, rd: bv5, rs1: bv5, a: bv12, word: bv32): Outcome {
    if !Csr.CanAccess(a, s.mode, WritesCsr(op, rs1)) then
      Next(TakeTrap(s, ILLEGAL_INSTRUCTION, word))
    else
      var current := Csr.Read(s.csr, s.mem.dev.mtime, a);
      var s1 := if WritesCsr(op, rs1) then PutCsr(s, a, CsrResult(op, current, CsrOperand(s, op, rs1))) else s;
      Next(WriteRegister(s1, rd, current))
  }

  function EcallCause(mode: Csr.Mode): bv32 {
    if mode == Csr.USER then ECALL_USER else if mode == Csr.SUPERVISOR then ECALL_SUPERVISOR else ECALL_MACHINE
  }

  function ExecMret(s: State, word: bv32): State {
    if s.mode < Csr.MACHINE then TakeTrap(s, ILLEGAL_INSTRUCTION, word) else MachineReturn(s)
  }

  function ExecSret(s: State, word: bv32): State {
    if s.mode == Csr.USER || (s.mode == Csr.SUPERVISOR && s.csr(Csr.MSTATUS) & TSR != 0) then
      TakeTrap(s, ILLEGAL_INSTRUCTION, word)
    else SupervisorReturn(s)
  }

  function ExecSfence(s: State, word: bv32): State {
    if s.mode < Csr.SUPERVISOR then TakeTrap(s, ILLEGAL_INSTRUCTION, word) else s
  }

  /** An effective address or a jump target, modulo 2^32. */
  function Offset(base: bv32, imm: bv32): bv32 {
    base + imm
  }

  function EvenTarget(base: bv32, imm: bv32): bv32 {
    Offset(base, imm) & !1
  }

  /** A register instruction; a shift by 32 or more has no meaning. */
  function ExecRegister(s: State, op: ROp, rd: bv5, a: bv32, b: bv32): Outcome {
    if !Alu.Defined(op, b) then Undefined else Next(WriteRegister(s, rd, Alu.RegisterResult(op, a, b)))
  }

  function ExecBranch(s: State, op: BOp, a: bv32, b: bv32, imm: bv32): State {
    if Alu.BranchTaken(op, a, b) then s.(nextPc := Offset(s.pc, imm)) else s
  }

  /** JAL and JALR: the link is the fall-through address; JALR reads rs1 before the link is written. */
  function ExecJump(s: State, rd: bv5, target: bv32): State {
    WriteRegister(s, rd, s.nextPc).(nextPc := target)
  }

  /** `Instruction::execute` on a decoded instruction; `word` is its encoding. */
  function Exec(s: State, i: Instr, word: bv32): Outcome {
    match i
    case Register(op, rd, rs1, rs2) => ExecRegister(s, op, rd, s.regs(rs1), s.regs(rs2))
    case LoadReserved(rd, rs1) => ExecLoadReserved(s, rd, s.regs(rs1))
    case StoreConditional(rd, rs1, rs2) => ExecStoreConditional(s, rd, s.regs(rs1), s.regs(rs2))
    case Amo(op, rd, rs1, rs2) => ExecAmo(s, op, rd, s.regs(rs1), s.regs(rs2))
    case Branch(op, rs1, rs2, imm) => Next(ExecBranch(s, op, s.regs(rs1), s.regs(rs2), imm))
    case Immediate(op, rd, rs1, imm) => Next(WriteRegister(s, rd, Alu.ImmediateResult(op, s.regs(rs1), imm)))
    case Load(op, rd, rs1, imm) => ExecLoad(s, op, rd, Offset(s.regs(rs1), imm))
    case Store(op, rs1, rs2, imm) => ExecStore(s, op, Offset(s.regs(rs1), imm), s.regs(rs2))
    case Jal(rd, imm) => Next(ExecJump(s, rd, Offset(s.pc, imm)))
    case Jalr(rd, rs1, imm) => Next(ExecJump(s, rd, EvenTarget(s.regs(rs1), imm)))
    case Lui(rd, imm) => Next(WriteRegister(s, rd, imm))
    case Auipc(rd, imm) => Next(WriteRegister(s, rd, Offset(s.pc, imm)))
    case CsrAccess(op, rd, rs1, csr) => ExecCsr(s, op, rd, rs1, csr, word)
    case Fence => Next(s)
    case Ecall => Next(TakeTrap(s, EcallCause(s.mode), 0))
    case Ebreak => Next(TakeTrap(s, BREAKPOINT, 0))
    case Mret => Next(ExecMret(s, word))
    case Sret => Next(ExecSret(s, word))
    case Wfi => Next(s)
    case SfenceVma => Next(ExecSfence(s, word))
    case Illegal => Rejected(s)
  }

  // ----- the step loop -----------------------------------------------------

  function PageFaultCause(kind: Bus.AccessType): bv32 {
    match kind case InstructionFetch => 12 case Load => 13 case Store => 15
  }

  function SetBit(word: bv32, mask: bv32, on: bool): bv32 {
    if on then word | mask else word & !mask
  }

  predicate TimerDue(mtime: bv64, compare: bv64) {
    mtime >= compare
  }

  function Join(low: bv32, high: bv32): bv64 {
    (low as bv64) | ((high as bv64) << 32)
  }

  /** mip as the timers and the console drive it. */
  function PendingAfter(s: State): bv32 {
    var d := s.mem.dev;
    var stimecmp := Join(s.csr(Csr.STIMECMP), s.csr(Csr.STIMECMPH));
    var m0 := SetBit(s.csr(Csr.MIP), 0x080, TimerDue(d.mtime, d.mtimecmp));
    var m1 := SetBit(m0, 0x020, TimerDue(d.mtime, stimecmp));
    SetBit(m1, 0xA00, Mmio.UartIrqPending(d))
  }

  predicate MachineEnabled(mode: Csr.Mode, mstatus: bv32) {
    mode < Csr.MACHINE || (mode == Csr.MACHINE && mstatus & 0x8 != 0)
  }

  predicate SupervisorEnabled(mode: Csr.Mode, mstatus: bv32) {
    mode < Csr.SUPERVISOR || (mode == Csr.SUPERVISOR && mstatus & 0x2 != 0)
  }

  const NO_INTERRUPT: bv32 := 0xFFFF_FFFF

  /** The interrupt to take, NO_INTERRUPT when none. */
  function SelectInterrupt(mode: Csr.Mode, mstatus: bv32, pending: bv32): bv32 {
    if MachineEnabled(mode, mstatus) && pending & 0x800 != 0 then 11
    else if MachineEnabled(mode, mstatus) && pending & 0x008 != 0 then 3
    else if MachineEnabled(mode, mstatus) && pending & 0x080 != 0 then 7
    else if SupervisorEnabled(mode, mstatus) && pending & 0x200 != 0 then 9
    else if SupervisorEnabled(mode, mstatus) && pending & 0x002 != 0 then 1
    else if SupervisorEnabled(mode, mstatus) && pending & 0x020 != 0 then 5
    else NO_INTERRUPT
  }

  /** After an instruction: the pc moves, time passes, mip is refreshed. */
  function Settle(s: State): State {
    var s1 := s.(pc := s.nextPc, mem := s.mem.(dev := s.mem.dev.(mtime := s.mem.dev.mtime + 1)));
    s1.(csr := Csr.Set(s1.csr, Csr.MIP, PendingAfter(s1)))
  }

  function InterruptOf(s: State): bv32 {
    SelectInterrupt(s.mode, s.csr(Csr.MSTATUS), s.csr(Csr.MIP) & s.csr(Csr.MIE))
  }

  /** An enabled pending interrupt is taken at once. */
  function Deliver(s: State): State {
    var cause := InterruptOf(s);
    if cause == NO_INTERRUPT then s else TakeTrap(s, INTERRUPT | cause, 0)
  }

  predicate IsCompressed(raw: bv32) {
    raw & 3 != 3
  }

  function Expand(raw: bv32): bv32 {
    if IsCompressed(raw) then Compressed.Decompress((raw & 0xFFFF) as bv16) else raw
  }

  function FallThrough(pc: bv32, raw: bv32): bv32 {
    if IsCompressed(raw) then pc + 2 else pc + 4
  }

  /** The instruction made the SD card read outside its disk. */
  predicate Overread(o: Outcome) {
    !o.Undefined? && o.state.mem.dev.spi.lost
  }

  /** What follows the execution of an instruction. */
  function Finish(o: Outcome, raw: bv32): Turn {
    if Overread(o) then NoMeaning else
    match o
    case Next(s) => Running(Deliver(Settle(s)))
    case Rejected(s) => Running(TakeTrap(s, ILLEGAL_INSTRUCTION, raw))
    case Fault(a, k, s) => Running(TakeTrap(s, PageFaultCause(k), a))
    case Undefined => NoMeaning
  }

  /** The turn after the word `raw` was fetched and nextPc set. */
  function Dispatch(s: State, raw: bv32): Turn {
    var word := Expand(raw);
    if word == 0 && s.pc == 0 then Halted(s) else Finish(Exec(s, Decode(word), word), raw)
  }

  /** One turn of the loop of `executeFromBinFile`. */
  function Step(s: State): Turn {
    match Bus.Read32(s.mem, HartOf(s), s.pc, true)
    case PageFault(a, k, m) => Running(TakeTrap(s.(mem := m), PageFaultCause(k), a))
    case Done(raw, m) => Dispatch(s.(mem := m, nextPc := FallThrough(s.pc, raw)), raw)
  }

  /** A keyboard character may arrive before a turn. */
  function Poll(s: State, key: Mmio.Option<bv32>): State {
    match key
    case None => s
    case Some(c) => s.(mem := s.mem.(dev := Mmio.Poll(s.mem.dev, c)))
  }

  // ----- runs --------------------------------------------------------------

  function ResetRegister(r: bv5): bv32 {
    if r == 2 then STACK_TOP else 0
  }

  function ResetRegisters(): bv5 -> bv32 {
    r => ResetRegister(r)
  }

  /** `reset`: the devices and nextPc keep their state. */
  function Reset(s: State): State {
    s.(regs := ResetRegisters(), pc := RAM_BASE, mode := Csr.MACHINE, csr := Csr.ResetFile(),
       mem := s.mem.(ram := Bus.Zeroes(), satp := 0), reserved := false)
  }

  /** The loop for as many turns as there are keyboard inputs. */
  function Turns(s: State, keys: seq<Mmio.Option<bv32>>): Turn
    decreases |keys|
  {
    if keys == [] then Running(s)
    else
      match Step(Poll(s, keys[0]))
      case Running(t) => Turns(t, keys[1..])
      case Halted(t) => Halted(t)
      case NoMeaning => NoMeaning
  }

  /** Successive states of the step loop under some keyboard input. */
  ghost predicate IsRun(run: seq<State>) {
    |run| > 0 && forall i :: 0 <= i < |run| - 1 ==> Follows(run[i], run[i + 1])
  }

  ghost predicate Follows(s: State, t: State) {
    exists key: Mmio.Option<bv32> :: Step(Poll(s, key)) == Running(t)
  }
}
