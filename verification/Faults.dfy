/** Page faults are precise, and an AMO is all or nothing. */
module Faults {
  import opened Effects
  import opened ExecFacts
  import opened Interrupts
  import opened Isa
  import opened Machine
  import opened Words
  import Alu
  import Bus
  import BusFacts
  import Csr
  import LrScAlias
  import Mmio
  import Straddling
  import Sv32Pages
  import Traps

  // ----- what the trap reports ----------------------------------------------------

  /** `t` is at the first instruction of the handler of a trap from `s`, in the mode the delegation
      registers choose, with epc, cause and tval of that level set. */
  ghost predicate Reports(s: State, t: State, cause: bv32, value: bv32) {
    if Traps.GoesToSupervisor(s, cause) then
      t.mode == Csr.SUPERVISOR && t.pc == s.csr(Csr.STVEC) & !3
      && t.csr(Csr.SEPC) == s.pc && t.csr(Csr.SCAUSE) == cause && t.csr(Csr.STVAL) == value
    else
      t.mode == Csr.MACHINE && t.pc == s.csr(Csr.MTVEC) & !3
      && t.csr(Csr.MEPC) == s.pc && t.csr(Csr.MCAUSE) == cause && t.csr(Csr.MTVAL) == value
  }

  lemma VectorsStay(cause: bv32)
    ensures !Traps.IsSupervisorTrapCsr(Csr.STVEC, cause) && !Traps.IsMachineTrapCsr(Csr.MTVEC)
  {
  }

  lemma SupervisorReports(s: State, cause: bv32, value: bv32)
    requires Delegated(s, cause)
    ensures Reports(s, TakeTrap(s, cause, value), cause, value)
  {
    VectorsStay(cause);
    hide Delegated, Traps.GoesToSupervisor, SupervisorTrapCsrs, MachineTrapCsrs, Traps.SupervisorPushed, Traps.IsSupervisorTrapCsr;
    Traps.DelegatedExactly(s, cause);
    Traps.SupervisorTrapWrites(s, cause, value, Csr.STVEC);
  }

  lemma MachineReports(s: State, cause: bv32, value: bv32)
    requires !Delegated(s, cause)
    ensures Reports(s, TakeTrap(s, cause, value), cause, value)
  {
    VectorsStay(cause);
    hide Delegated, Traps.GoesToSupervisor, SupervisorTrapCsrs, MachineTrapCsrs, Traps.Pushed, Traps.IsMachineTrapCsr;
    Traps.DelegatedExactly(s, cause);
    Traps.MachineTrapWrites(s, cause, value, Csr.MTVEC);
  }

  lemma TrapReports(s: State, cause: bv32, value: bv32)
    ensures Reports(s, TakeTrap(s, cause, value), cause, value)
    ensures TakeTrap(s, cause, value).regs == s.regs && TakeTrap(s, cause, value).mem == s.mem
  {
    hide Delegated, SupervisorTrapCsrs, MachineTrapCsrs, Reports;
    if Delegated(s, cause) {
      SupervisorReports(s, cause, value);
    } else {
      MachineReports(s, cause, value);
    }
  }

  /** Registers, RAM and time are as before the turn. */
  ghost predicate Unharmed(s: State, t: State) {
    t.regs == s.regs && t.mem.ram == s.mem.ram && t.mem.dev.mtime == s.mem.dev.mtime
  }

  lemma SameReports(s: State, u: State, t: State, cause: bv32, value: bv32)
    requires u.csr == s.csr && u.mode == s.mode && u.pc == s.pc && Reports(u, t, cause, value)
    ensures Reports(s, t, cause, value)
  {
    hide Traps.CauseNumber, Bit;
  }

  // ----- fetch ---------------------------------------------------------------------

  /** A fetch inside a page that faults reports the pc as the faulting address, with the cause
      of an instruction page fault, and has changed nothing else. */
  lemma FetchFaultIsPrecise(s: State)
    requires Bus.Read32(s.mem, HartOf(s), s.pc, true).PageFault? && !Bus.Straddles(s.pc, 4)
    ensures Step(s).Running? && Unharmed(s, Step(s).state) && Reports(s, Step(s).state, 12, s.pc)
  {
    hide Bus.Read32, HartOf, TakeTrap, Reports, Bus.Straddles, FallThrough, Dispatch;
    BusFacts.Read32Frame(s.mem, HartOf(s), s.pc, true);
    var r := Bus.Read32(s.mem, HartOf(s), s.pc, true);
    var u := s.(mem := r.mem);
    TrapReports(u, 12, s.pc);
    SameReports(s, u, TakeTrap(u, 12, s.pc), 12, s.pc);
  }

  /** A fetch that crosses a page completes if and only if each of its four bytes can be loaded as
      data: whether they may be executed is not asked. */
  lemma StraddlingFetchCompletes(s: State)
    requires Bus.Straddles(s.pc, 4)
    ensures Bus.Read32(s.mem, HartOf(s), s.pc, true).Done?
        <==> forall j: nat :: j < 4 ==> Straddling.Loads(s.mem, HartOf(s), s.pc, j)
  {
    hide Bus.Read32Bytes, HartOf, Bus.Straddles, Bus.Translate, Bus.ReadPhysical, Straddling.Loads;
    var k := Straddling.StraddlingLoad(s.mem, HartOf(s), s.pc);
  }

  /** Otherwise the turn ends in a load page fault, at the first of the bytes pc to pc + 3 that
      cannot be loaded. */
  lemma StraddlingFetchFaultsAsLoad(s: State) returns (k: nat)
    requires Bus.Read32(s.mem, HartOf(s), s.pc, true).PageFault? && Bus.Straddles(s.pc, 4)
    ensures Straddling.FirstUnread(s.mem, HartOf(s), s.pc, k)
    ensures Step(s).Running? && Unharmed(s, Step(s).state)
    ensures Reports(s, Step(s).state, 13, Straddling.ByteAddress(s.pc, k))
  {
    hide Bus.Read32Bytes, HartOf, TakeTrap, Reports, Bus.Straddles, FallThrough, Dispatch, Bus.Translate, Bus.ReadPhysical,
         Straddling.FirstUnread, Straddling.ByteAddress, Straddling.Loads;
    BusFacts.Read32BytesFrame(s.mem, HartOf(s), s.pc);
    k := Straddling.StraddlingLoad(s.mem, HartOf(s), s.pc);
    UnreadRange(s, k);
    var r := Bus.Read32Bytes(s.mem, HartOf(s), s.pc);
    var u := s.(mem := r.mem);
    TrapReports(u, 13, r.address);
    SameReports(s, u, TakeTrap(u, 13, r.address), 13, r.address);
  }

  lemma UnreadRange(s: State, k: nat)
    ensures Straddling.FirstUnread(s.mem, HartOf(s), s.pc, k) ==> k < 4
  {
    hide Straddling.Loads;
  }

  // ----- memory instructions ----------------------------------------------------------

  /** The virtual address a memory instruction accesses. */
  function AddressOf(s: State, i: Instr): bv32 {
    match i
    case Load(_, _, rs1, imm) => Offset(s.regs(rs1), imm)
    case Store(_, rs1, _, imm) => Offset(s.regs(rs1), imm)
    case LoadReserved(_, rs1) => s.regs(rs1)
    case StoreConditional(_, rs1, _) => s.regs(rs1)
    case Amo(_, _, rs1, _) => s.regs(rs1)
    case _ => 0
  }

  function LoadSize(op: LOp): bv32 {
    match op case LB => 1 case LBU => 1 case LH => 2 case LHU => 2 case LW => 4
  }

  function SizeOf(i: Instr): bv32 {
    match i
    case Load(op, _, _, _) => LoadSize(op)
    case Store(SB, _, _, _) => 1
    case Store(SH, _, _, _) => 2
    case _ => 4
  }

  /** The access type a fault of the instruction carries. SC.W and the AMOs begin with a load, and
      when that load faults the fault is a load's. */
  function FaultKind(s: State, i: Instr): Bus.AccessType {
    if i.Load? || i.LoadReserved? then Bus.Load
    else if i.Store? then Bus.Store
    else if Bus.Translate(s.mem, HartOf(s), AddressOf(s, i), Bus.Load).PageFault? then Bus.Load
    else Bus.Store
  }

  /** The one kind of fault at `v` in which an instruction that reads and then writes can end. */
  predicate AtomicKind(s: State, v: bv32, o: Outcome) {
    o.Fault? ==>
      o.kind != Bus.InstructionFetch
      && (o.kind == Bus.Load <==> Bus.Translate(s.mem, HartOf(s), v, Bus.Load).PageFault?)
  }

  /** A fault that changed at most the device and the reservation. */
  ghost predicate Precise(s: State, o: Outcome, v: bv32) {
    o.Fault? ==>
      o.address == v && o.state == s.(mem := o.state.mem, reserved := o.state.reserved)
      && BusFacts.OnlyDevice(s.mem, o.state.mem)
  }

  lemma LoadAccessPrecise(m: Bus.Mem, h: Bus.Hart, op: LOp, v: bv32)
    requires !Bus.Straddles(v, LoadSize(op))
    ensures LoadAccess(m, h, op, v).PageFault? ==> LoadAccess(m, h, op, v).address == v
  {
    hide Bus.Read8, Bus.Read16, Bus.Read32, Alu.SignExtend8, Alu.SignExtend16, BusFacts.OnlyDevice, Bus.Straddles;
    BusFacts.Read8Frame(m, h, v);
    BusFacts.Read16Frame(m, h, v);
    BusFacts.Read32Frame(m, h, v, false);
  }

  lemma LoadPrecise(s: State, op: LOp, rd: bv5, v: bv32)
    requires !Bus.Straddles(v, LoadSize(op))
    ensures Precise(s, ExecLoad(s, op, rd, v), v)
    ensures ExecLoad(s, op, rd, v).Fault? ==> ExecLoad(s, op, rd, v).kind == Bus.Load
  {
    hide LoadAccess, WriteRegister, HartOf, Bus.Straddles, BusFacts.OnlyDevice;
    LoadAccessFrame(s.mem, HartOf(s), op, v);
    LoadAccessPrecise(s.mem, HartOf(s), op, v);
  }

  lemma StoreAccessPrecise(m: Bus.Mem, h: Bus.Hart, op: SOp, v: bv32, value: bv32)
    requires !Bus.Straddles(v, match op case SB => 1 case SH => 2 case SW => 4)
    ensures StoreAccess(m, h, op, v, value).PageFault? ==>
      StoreAccess(m, h, op, v, value).address == v && BusFacts.OnlyDevice(m, StoreAccess(m, h, op, v, value).mem)
  {
    hide Bus.Write8, Bus.Write16, Bus.Write32, BusFacts.OnlyDevice, BusFacts.SameSatp, Bus.Straddles, ByteOf;
    BusFacts.Write8Frame(m, h, v, ByteOf(value, 0));
    BusFacts.Write16Frame(m, h, v, value);
    BusFacts.Write32Frame(m, h, v, value);
  }

  lemma NotifyKeeps(s: State, v: bv32, size: bv64)
    ensures NotifyStore(s, v, size) == s.(reserved := NotifyStore(s, v, size).reserved)
  {
    hide Overlaps;
  }

  lemma StorePrecise(s: State, op: SOp, v: bv32, value: bv32)
    requires !Bus.Straddles(v, match op case SB => 1 case SH => 2 case SW => 4)
    ensures Precise(s, ExecStore(s, op, v, value), v)
    ensures ExecStore(s, op, v, value).Fault? ==> ExecStore(s, op, v, value).kind == Bus.Store
  {
    hide StoreAccess, NotifyStore, StoreSize, Bus.Straddles, BusFacts.OnlyDevice, BusFacts.SameSatp;
    NotifyKeeps(s, v, StoreSize(op));
    StoreAccessFrame(s.mem, HartOf(s), op, v, value);
    StoreAccessPrecise(s.mem, HartOf(s), op, v, value);
  }

  lemma LoadReservedPrecise(s: State, rd: bv5, v: bv32)
    requires !Bus.Straddles(v, 4)
    ensures Precise(s, ExecLoadReserved(s, rd, v), v)
    ensures ExecLoadReserved(s, rd, v).Fault? ==> ExecLoadReserved(s, rd, v).kind == Bus.Load
  {
    hide Bus.Read32, Bus.Translate, WriteRegister, HartOf, Bus.Straddles;
    var m := Bus.Read32(s.mem, HartOf(s), v, false).mem;
    BusFacts.Read32Frame(s.mem, HartOf(s), v, false);
    BusFacts.TranslateFrame(m, HartOf(s), v, Bus.Load);
  }

  lemma StoreThenWritePrecise(s: State, rd: bv5, v: bv32, value: bv32, result: bv32)
    requires !Bus.Straddles(v, 4)
    ensures Precise(s, StoreThenWrite(s, rd, v, value, result), v)
    ensures var o := StoreThenWrite(s, rd, v, value, result); o.Fault? ==> o.kind == Bus.Store
  {
    hide Bus.Write32, WriteRegister, HartOf, Bus.Straddles;
    BusFacts.Write32Frame(s.mem, HartOf(s), v, value);
  }

  lemma PreciseFrom(s: State, t: State, o: Outcome, v: bv32)
    requires t == s.(mem := t.mem, reserved := t.reserved) && BusFacts.OnlyDevice(s.mem, t.mem) && Precise(t, o, v)
    ensures Precise(s, o, v)
  {
  }

  lemma StoreConditionalPrecise(s: State, rd: bv5, v: bv32, value: bv32)
    requires !Bus.Straddles(v, 4)
    ensures Precise(s, ExecStoreConditional(s, rd, v, value), v)
    ensures AtomicKind(s, v, ExecStoreConditional(s, rd, v, value))
  {
    hide Bus.Translate, WriteRegister, HartOf, Bus.Straddles, StoreThenWrite;
    var t := Bus.Translate(s.mem, HartOf(s), v, Bus.Load);
    BusFacts.TranslateFrame(s.mem, HartOf(s), v, Bus.Load);
    var s1 := s.(mem := t.mem, reserved := false);
    StoreThenWritePrecise(s1, rd, v, value, 0);
    PreciseFrom(s, s1, StoreThenWrite(s1, rd, v, value, 0), v);
  }

  lemma ReadFaults(m: Bus.Mem, h: Bus.Hart, v: bv32)
    requires !Bus.Straddles(v, 4)
    ensures Bus.Read32(m, h, v, false).PageFault? <==> Bus.Translate(m, h, v, Bus.Load).PageFault?
  {
    hide Bus.Translate, Bus.Straddles, Bus.ReadPhysical;
  }

  lemma AmoPrecise(s: State, op: AmoOp, rd: bv5, v: bv32, operand: bv32)
    requires !Bus.Straddles(v, 4)
    ensures Precise(s, ExecAmo(s, op, rd, v, operand), v)
    ensures AtomicKind(s, v, ExecAmo(s, op, rd, v, operand))
  {
    hide Bus.Read32, Bus.Translate, NotifyStore, Alu.AmoResult, HartOf, Bus.Straddles, StoreThenWrite, BusFacts.OnlyDevice;
    var r := Bus.Read32(s.mem, HartOf(s), v, false);
    BusFacts.Read32Frame(s.mem, HartOf(s), v, false);
    ReadFaults(s.mem, HartOf(s), v);
    if r.Done? {
      hide Precise;
      var s0, value := s.(mem := r.mem), Alu.AmoResult(op, r.value, operand);
      var s1 := NotifyStore(s0, v, 4);
      NotifyKeeps(s0, v, 4);
      StoreThenWritePrecise(s1, rd, v, value, r.value);
      PreciseFrom(s, s1, StoreThenWrite(s1, rd, v, value, r.value), v);
    }
  }

  /** A fault of an access inside a page names the accessed address, with the access type of the
      access that failed, and leaves every register, RAM and time alone. */
  lemma MemoryFaultIsPrecise(s: State, i: Instr, word: bv32)
    requires IsMemory(i) && !Bus.Straddles(AddressOf(s, i), SizeOf(i))
    ensures Precise(s, Exec(s, i, word), AddressOf(s, i))
    ensures Exec(s, i, word).Fault? ==> Exec(s, i, word).kind == FaultKind(s, i)
  {
    hide Precise, Bus.Translate, HartOf, Exec, ExecLoad, ExecStore, ExecLoadReserved, ExecStoreConditional, ExecAmo, Bus.Straddles, Offset;
    if i.Load? {
      ExecOfLoad(s, i.lop, i.rd, i.rs1, i.imm, word);
      LoadPrecise(s, i.lop, i.rd, Offset(s.regs(i.rs1), i.imm));
    } else if i.Store? {
      ExecOfStore(s, i.sop, i.rs1, i.rs2, i.imm, word);
      StorePrecise(s, i.sop, Offset(s.regs(i.rs1), i.imm), s.regs(i.rs2));
    } else if i.LoadReserved? {
      ExecOfLoadReserved(s, i.rd, i.rs1, word);
      LoadReservedPrecise(s, i.rd, s.regs(i.rs1));
    } else if i.StoreConditional? {
      ExecOfStoreConditional(s, i.rd, i.rs1, i.rs2, word);
      StoreConditionalPrecise(s, i.rd, s.regs(i.rs1), s.regs(i.rs2));
    } else {
      ExecOfAmo(s, i.amo, i.rd, i.rs1, i.rs2, word);
      AmoPrecise(s, i.amo, i.rd, s.regs(i.rs1), s.regs(i.rs2));
    }
  }

  /** The turn of an instruction whose access, inside a page, faults: registers, RAM and time are
      as before, and the handler finds the pc, the accessed address and the cause: 13 for the
      loads and LR.W, 15 for the stores, and for SC.W and the AMOs 13 exactly when the load they
      begin with is what faults. */
  lemma AccessFaultIsPrecise(s: State, s1: State, i: Instr, word: bv32)
    requires Executing(s) == Mmio.Some((s1, i, word)) && Exec(s1, i, word).Fault? && !s.mem.dev.spi.lost
    requires IsMemory(i) && !Bus.Straddles(AddressOf(s1, i), SizeOf(i))
    ensures Step(s).Running? && Unharmed(s, Step(s).state)
    ensures Reports(s, Step(s).state, PageFaultCause(FaultKind(s1, i)), AddressOf(s1, i))
  {
    hide Bus.Read32, HartOf, TakeTrap, Reports, Bus.Straddles, FallThrough, Exec, Decode, Expand, PageFaultCause, AddressOf, SizeOf,
         IsMemory, FaultKind, Settle, Deliver;
    BusFacts.Read32Frame(s.mem, HartOf(s), s.pc, true);
    MemoryFaultIsPrecise(s1, i, word);
    var o := Exec(s1, i, word);
    var cause := PageFaultCause(o.kind);
    TrapReports(o.state, cause, o.address);
    SameReports(s, o.state, TakeTrap(o.state, cause, o.address), cause, o.address);
  }

  /** SC.W and the AMOs report the store page fault that the manual asks for exactly when the load
      they begin with goes through; otherwise they report a load page fault. */
  lemma AtomicFaultCause(s: State, s1: State, i: Instr, word: bv32)
    requires Executing(s) == Mmio.Some((s1, i, word)) && Exec(s1, i, word).Fault? && !s.mem.dev.spi.lost
    requires (i.StoreConditional? || i.Amo?) && !Bus.Straddles(s1.regs(i.rs1), 4)
    ensures var loads := Bus.Translate(s1.mem, HartOf(s1), s1.regs(i.rs1), Bus.Load).Done?;
      Step(s).Running? && Reports(s, Step(s).state, if loads then 15 else 13, s1.regs(i.rs1))
  {
    hide Bus.Translate, Bus.Straddles, HartOf, Executing, Exec, Step, Reports;
    AccessFaultIsPrecise(s, s1, i, word);
  }

  /** An AMO on a RAM word that its address maps to either faults on the store with nothing
      changed, or replaces exactly that word by the operation's result and puts the old word
      in rd. */
  lemma AmoIsAllOrNothing(s: State, op: AmoOp, rd: bv5, v: bv32, operand: bv32, p: bv32)
    requires !Bus.Straddles(v, 4) && !Mmio.Readable(p)
    requires AmoMaps(s, v, p)
    ensures var o, before := ExecAmo(s, op, rd, v, operand), Bus.GetWord(s.mem.ram, p);
      if Bus.Translate(s.mem, HartOf(s), v, Bus.Store).Done? then
        o.Next? && o.state.mem == LrScAlias.WithWord(s.mem, p, Alu.AmoResult(op, before, operand))
        && o.state.regs == SetRegister(s.regs, rd, before)
      else
        o.Fault? && o.kind == Bus.Store && o.state.regs == s.regs && o.state.mem.ram == s.mem.ram
  {
    hide Bus.Translate, Bus.Straddles, Mmio.Readable, Alu.AmoResult, Bus.GetWord, SetRegister, Overlaps, HartOf, Bus.Write32, Bus.Read32, LrScAlias.WithWord;
    var before := Bus.GetWord(s.mem.ram, p);
    var value := Alu.AmoResult(op, before, operand);
    AmoReads(s, v, p);
    AmoWrites(s, v, p, value);
    HartSame(s, v);
    if Bus.Translate(s.mem, HartOf(s), v, Bus.Store).PageFault? {
      BusFacts.Write32Frame(s.mem, HartOf(s), v, value);
    }
  }

  /** The load side of the access at `v` goes to `p`, through page tables in RAM. */
  ghost predicate AmoMaps(s: State, v: bv32, p: bv32) {
    Bus.Translate(s.mem, HartOf(s), v, Bus.Load) == Bus.Done(p, s.mem)
  }

  lemma HartSame(s: State, v: bv32)
    ensures HartOf(NotifyStore(s, v, 4)) == HartOf(s) && NotifyStore(s, v, 4).mem == s.mem
    ensures NotifyStore(s, v, 4).regs == s.regs
  {
    hide Overlaps;
  }

  lemma AmoReads(s: State, v: bv32, p: bv32)
    requires !Bus.Straddles(v, 4) && !Mmio.Readable(p) && AmoMaps(s, v, p)
    ensures Bus.Read32(s.mem, HartOf(s), v, false) == Bus.Done(Bus.GetWord(s.mem.ram, p), s.mem)
  {
    hide Bus.Translate, Bus.Straddles, Mmio.Readable, Mmio.Read, HartOf, Bus.GetWord;
    Mmio.Claims(s.mem.dev, p, 0);
  }

  lemma AmoWrites(s: State, v: bv32, p: bv32, value: bv32)
    requires !Bus.Straddles(v, 4) && !Mmio.Readable(p) && AmoMaps(s, v, p)
    ensures Bus.Write32(s.mem, HartOf(s), v, value).Done? <==> Bus.Translate(s.mem, HartOf(s), v, Bus.Store).Done?
    ensures Bus.Translate(s.mem, HartOf(s), v, Bus.Store).Done? ==>
      Bus.Write32(s.mem, HartOf(s), v, value) == Bus.Done((), LrScAlias.WithWord(s.mem, p, value))
  {
    LrScAlias.NotWritable(p);
    hide Bus.Translate, Bus.Straddles, Mmio.Readable, Mmio.Writable, Mmio.Write, HartOf, Bus.SetWord;
    Mmio.Claims(s.mem.dev, p, value);
    if Bus.Translate(s.mem, HartOf(s), v, Bus.Store).Done? {
      Sv32Pages.StoreImpliesLoad(s.mem, HartOf(s), v);
    }
  }
}
