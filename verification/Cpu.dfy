/** The CPU object: registers, pc, privilege and reservation updated in place, over the CSR unit
    and the memory system. Every method is proved against the functions of module Machine. */
module Cpu {
  import opened Words
  import opened Isa
  import Alu
  import Bus
  import Csr
  import Effects
  import ExecFacts
  import Machine
  import Mmio
  import PagedMemory

  lemma RegisterInjective(r: bv5, q: bv5)
    requires r as nat == q as nat
    ensures r == q
  {
    assert (r as nat) as bv5 == r;
    assert (q as nat) as bv5 == q;
  }

  /** How an instruction ends; a page fault is an exception of the source. */
  datatype Ended = Completed | Unknown | Threw(address: bv32, kind: Bus.AccessType) | NoMeaning

  /** The outcome of an instruction that ended so and left `s`. */
  ghost function OutcomeOf(e: Ended, s: Machine.State): Machine.Outcome {
    match e
    case Completed => Machine.Next(s)
    case Unknown => Machine.Rejected(s)
    case Threw(address, kind) => Machine.Fault(address, kind, s)
    case NoMeaning => Machine.Undefined
  }

  /** How a turn of the loop ends. */
  datatype TurnEnd = Turning | Stopped | Meaningless

  ghost function TurnOf(t: TurnEnd, s: Machine.State): Machine.Turn {
    match t
    case Turning => Machine.Running(s)
    case Stopped => Machine.Halted(s)
    case Meaningless => Machine.NoMeaning
  }

  class RiscvCpu {
    const regs: array<bv32>
    var pc: bv32
    var nextPc: bv32
    var mode: Csr.Mode
    var reservationValid: bool
    var reservationAddress: bv32
    const csrUnit: Csr.CsrUnit
    const mem: PagedMemory.Memory
    /** The hart state this object is in. */
    ghost var state: Machine.State

    ghost function Footprint(): set<object>
      reads mem`pages, mem`disk
    {
      {this, regs, csrUnit, csrUnit.csrs} + mem.Footprint()
    }

    /** The parts share no memory. */
    ghost predicate Separate()
      reads mem`pages, mem`disk
    {
      regs != csrUnit.csrs
      && this !in mem.Footprint() && regs !in mem.Footprint() && csrUnit !in mem.Footprint() && csrUnit.csrs !in mem.Footprint()
    }

    ghost predicate RegistersMatch(file: bv5 -> bv32)
      reads regs
    {
      regs.Length == 32 && forall r: bv5 :: regs[r as nat] == file(r)
    }

    ghost predicate FieldsMatch(s: Machine.State)
      reads this`pc, this`nextPc, this`mode, this`reservationValid, this`reservationAddress
    {
      pc == s.pc && nextPc == s.nextPc && mode == s.mode && reservationValid == s.reserved && reservationAddress == s.reservation
    }

    ghost predicate CsrsMatch(file: Csr.File)
      reads csrUnit, csrUnit.csrs
    {
      csrUnit.Valid() && csrUnit.file == file
    }

    ghost predicate MemoryMatches(m: Bus.Mem)
      reads mem, mem.disk, mem.uartRegs, mem.pages.Values
    {
      mem.Valid() && mem.View() == m
    }

    ghost predicate Valid()
      reads this, regs, csrUnit, csrUnit.csrs, mem, mem.disk, mem.uartRegs, mem.pages.Values
    {
      Separate() && RegistersMatch(state.regs) && FieldsMatch(state) && CsrsMatch(state.csr) && MemoryMatches(state.mem)
    }

    constructor (unit: Csr.CsrUnit, memory: PagedMemory.Memory)
      requires unit.Valid() && memory.Valid() && unit !in memory.Footprint() && unit.csrs !in memory.Footprint()
      ensures Valid() && csrUnit == unit && mem == memory
    {
      hide PagedMemory.Memory.Valid, PagedMemory.Memory.View, Csr.CsrUnit.Valid;
      regs := new bv32[32](_ => 0);
      pc, nextPc, mode := 0, 0, Csr.MACHINE;
      reservationValid, reservationAddress := false, 0;
      csrUnit := unit;
      mem := memory;
      state := Machine.State(_ => 0, 0, 0, Csr.MACHINE, unit.file, memory.View(), false, 0);
    }

    // ----- registers and reservation ------------------------------------------

    method PutRegister(rd: bv5, value: bv32, ghost file: bv5 -> bv32)
      requires RegistersMatch(file)
      modifies regs
      ensures RegistersMatch(r => if r == rd then value else file(r))
    {
      regs[rd as nat] := value;
      forall r: bv5
        ensures regs[r as nat] == if r == rd then value else file(r)
      {
        if r as nat == rd as nat { RegisterInjective(r, rd); }
      }
    }

    method SetRegister(rd: bv5, value: bv32)
      requires Valid()
      modifies this`state, regs
      ensures Valid() && state == Machine.WriteRegister(old(state), rd, value)
    {
      hide RegistersMatch, CsrsMatch, MemoryMatches;
      if rd != 0 {
        PutRegister(rd, value, state.regs);
        state := Machine.WriteRegister(state, rd, value);
      }
    }

    function Register(r: bv5): (value: bv32)
      requires Valid()
      reads this, regs, csrUnit, csrUnit.csrs, mem, mem.disk, mem.uartRegs, mem.pages.Values
      ensures value == state.regs(r)
    {
      regs[r as nat]
    }

    method NotifyStore(address: bv32, size: bv64)
      requires Valid()
      modifies this`state, this`reservationValid
      ensures Valid() && state == Machine.NotifyStore(old(state), address, size)
    {
      hide RegistersMatch, CsrsMatch, MemoryMatches, Machine.Overlaps;
      if reservationValid && Machine.Overlaps(address, size, reservationAddress) {
        reservationValid := false;
        state := state.(reserved := false);
      }
    }

    method MakeReservation(address: bv32)
      requires Valid()
      modifies this`state, this`reservationValid, this`reservationAddress
      ensures Valid() && state == old(state).(reserved := true, reservation := address)
    {
      hide RegistersMatch, CsrsMatch, MemoryMatches;
      reservationValid, reservationAddress := true, address;
      state := state.(reserved := true, reservation := address);
    }

    method CheckAndClearReservation(address: bv32) returns (isValid: bool)
      requires Valid()
      modifies this`state, this`reservationValid
      ensures Valid() && isValid == (old(state).reserved && old(state).reservation == address)
      ensures state == old(state).(reserved := false)
    {
      hide RegistersMatch, CsrsMatch, MemoryMatches;
      isValid := reservationValid && reservationAddress == address;
      reservationValid := false;
      state := state.(reserved := false);
    }

    /** Control goes to `target` at `newMode`. */
    method Enter(newMode: Csr.Mode, target: bv32)
      requires Valid()
      modifies this`state, this`mode, this`pc, this`nextPc
      ensures Valid() && state == old(state).(mode := newMode, pc := target, nextPc := target)
    {
      hide RegistersMatch, CsrsMatch, MemoryMatches;
      mode, pc, nextPc := newMode, target, target;
      state := state.(mode := newMode, pc := target, nextPc := target);
    }

    method SetNextPc(target: bv32)
      requires Valid()
      modifies this`state, this`nextPc
      ensures Valid() && state == old(state).(nextPc := target)
    {
      hide RegistersMatch, CsrsMatch, MemoryMatches;
      nextPc := target;
      state := state.(nextPc := target);
    }

    // ----- CSRs ----------------------------------------------------------------

    method WriteCsr(a: bv12, value: bv32)
      requires Valid()
      modifies this`state, csrUnit, csrUnit.csrs
      ensures Valid() && state == old(state).(csr := Csr.Write(old(state).csr, a, value))
    {
      hide RegistersMatch, MemoryMatches, Csr.Write;
      csrUnit.WriteCsr(a, value);
      state := state.(csr := csrUnit.file);
    }

    function GetCsr(a: bv12): (value: bv32)
      requires Valid()
      reads this, regs, csrUnit, csrUnit.csrs, mem, mem.disk, mem.uartRegs, mem.pages.Values
      ensures value == state.csr(a)
    {
      csrUnit.Get(a)
    }

    // ----- traps ---------------------------------------------------------------

    method SupervisorTrap(cause: bv32, value: bv32)
      requires Valid()
      modifies this`state, csrUnit, csrUnit.csrs
      ensures Valid() && state == old(state).(csr := Machine.SupervisorTrapCsrs(old(state), cause, value))
    {
      assert pc == state.pc && mode == state.mode;
      hide Valid, Csr.Write, Machine.PushSupervisor, Machine.CauseBit, GetCsr;
      if cause & Machine.INTERRUPT != 0 {
        WriteCsr(Csr.SIP, Machine.CauseBit(cause));
      }
      WriteCsr(Csr.SEPC, pc);
      WriteCsr(Csr.SCAUSE, cause);
      WriteCsr(Csr.STVAL, value);
      WriteCsr(Csr.SSTATUS, Machine.PushSupervisor(GetCsr(Csr.MSTATUS) & Csr.SSTATUS_MASK, mode));
    }

    method MachineTrap(cause: bv32, value: bv32)
      requires Valid()
      modifies this`state, csrUnit, csrUnit.csrs
      ensures Valid() && state == old(state).(csr := Machine.MachineTrapCsrs(old(state), cause, value))
    {
      assert pc == state.pc && mode == state.mode;
      hide Valid, Csr.Write, Machine.PushMachine, GetCsr;
      WriteCsr(Csr.MEPC, pc);
      WriteCsr(Csr.MCAUSE, cause);
      WriteCsr(Csr.MTVAL, value);
      WriteCsr(Csr.MSTATUS, Machine.PushMachine(GetCsr(Csr.MSTATUS), mode));
    }
  
    predicate DelegatesToSupervisor(cause: bv32)
      requires Valid()
      reads this, regs, csrUnit, csrUnit.csrs, mem, mem.disk, mem.uartRegs, mem.pages.Values
      ensures DelegatesToSupervisor(cause) == Machine.Delegated(state, cause)
    {
      mode <= Csr.SUPERVISOR
      && GetCsr(if cause & Machine.INTERRUPT != 0 then Csr.MIDELEG else Csr.MEDELEG) & Machine.CauseBit(cause) != 0
    }

    /** The handler takes over; the reservation is gone. */
    method EnterHandler(newMode: Csr.Mode, handler: bv32)
      requires Valid()
      modifies this`state, this`reservationValid, this`mode, this`pc, this`nextPc
      ensures Valid()
      ensures state == old(state).(reserved := false, mode := newMode, pc := handler, nextPc := handler)
    {
      hide RegistersMatch, CsrsMatch, MemoryMatches;
      reservationValid, mode, pc, nextPc := false, newMode, handler, handler;
      state := state.(reserved := false, mode := newMode, pc := handler, nextPc := handler);
    }

    method TakeTrap(cause: bv32, value: bv32)
      requires Valid()
      modifies this`state, this`reservationValid, this`mode, this`pc, this`nextPc, csrUnit, csrUnit.csrs
      ensures Valid() && state == Machine.TakeTrap(old(state), cause, value)
    {
      hide Valid, Machine.SupervisorTrapCsrs, Machine.MachineTrapCsrs, Machine.Delegated, GetCsr, DelegatesToSupervisor;
      var delegateToS := DelegatesToSupervisor(cause);
      if delegateToS {
        SupervisorTrap(cause, value);
        EnterHandler(Csr.SUPERVISOR, GetCsr(Csr.STVEC) & !3);
      } else {
        MachineTrap(cause, value);
        EnterHandler(Csr.MACHINE, GetCsr(Csr.MTVEC) & !3);
      }
    }
  
    // ----- memory ----------------------------------------------------------------

    function Hart(): (h: Bus.Hart)
      requires Valid()
      reads this, regs, csrUnit, csrUnit.csrs, mem, mem.disk, mem.uartRegs, mem.pages.Values
      ensures h == Machine.HartOf(state)
    {
      Bus.Hart(mode, GetCsr(Csr.MSTATUS))
    }

    /** The abstract state takes over what the memory system did. */
    ghost method AdoptMemory()
      requires Separate() && RegistersMatch(state.regs) && FieldsMatch(state) && CsrsMatch(state.csr) && mem.Valid()
      modifies this`state
      ensures Valid() && state == old(state).(mem := mem.View())
    {
      hide RegistersMatch, CsrsMatch, PagedMemory.Memory.Valid, PagedMemory.Memory.View;
      state := state.(mem := mem.View());
    }

    method Load8(address: bv32) returns (r: PagedMemory.Result<bv8>)
      requires Valid()
      modifies this`state, mem`uartIn, mem`uartTxIrq
      ensures Valid() && state == old(state).(mem := state.mem)
      ensures PagedMemory.After(r, state.mem) == Bus.Read8(old(state).mem, Machine.HartOf(old(state)), address)
    {
      var h := Hart();
      hide RegistersMatch, CsrsMatch, FieldsMatch, Separate, Bus.Read8, Hart, PagedMemory.Memory.Valid, PagedMemory.Memory.View, PagedMemory.After;
      r := mem.Read8(h, address);
      AdoptMemory();
    }

    method Load16(address: bv32) returns (r: PagedMemory.Result<bv32>)
      requires Valid()
      modifies this`state, mem`uartIn, mem`uartTxIrq
      ensures Valid() && state == old(state).(mem := state.mem)
      ensures PagedMemory.After(r, state.mem) == Bus.Read16(old(state).mem, Machine.HartOf(old(state)), address)
    {
      var h := Hart();
      hide RegistersMatch, CsrsMatch, FieldsMatch, Separate, Bus.Read16, Hart, PagedMemory.Memory.Valid, PagedMemory.Memory.View, PagedMemory.After;
      r := mem.Read16(h, address);
      AdoptMemory();
    }

    method Load32(address: bv32, isInstruction: bool) returns (r: PagedMemory.Result<bv32>)
      requires Valid()
      modifies this`state, mem`uartIn, mem`uartTxIrq
      ensures Valid() && state == old(state).(mem := state.mem)
      ensures PagedMemory.After(r, state.mem) == Bus.Read32(old(state).mem, Machine.HartOf(old(state)), address, isInstruction)
    {
      var h := Hart();
      hide RegistersMatch, CsrsMatch, FieldsMatch, Separate, Bus.Read32, Hart, PagedMemory.Memory.Valid, PagedMemory.Memory.View, PagedMemory.After;
      r := mem.Read32(h, address, isInstruction);
      AdoptMemory();
    }

    method TranslateForLoad(address: bv32) returns (r: PagedMemory.Result<bv32>)
      requires Valid()
      modifies this`state, mem`uartIn, mem`uartTxIrq
      ensures Valid() && state == old(state).(mem := state.mem)
      ensures PagedMemory.After(r, state.mem) == Bus.Translate(old(state).mem, Machine.HartOf(old(state)), address, Bus.Load)
    {
      var h := Hart();
      hide RegistersMatch, CsrsMatch, FieldsMatch, Separate, Bus.Translate, Hart, PagedMemory.Memory.Valid, PagedMemory.Memory.View, PagedMemory.After;
      r := mem.TranslateAddress(h, address, Bus.Load);
      AdoptMemory();
    }

    method Store8(address: bv32, value: bv8) returns (r: PagedMemory.Result<()>)
      requires Valid()
      modifies this`state, mem.Footprint()
      ensures Valid() && fresh(mem.Footprint() - old(mem.Footprint())) && state == old(state).(mem := state.mem)
      ensures PagedMemory.After(r, state.mem) == Bus.Write8(old(state).mem, Machine.HartOf(old(state)), address, value)
    {
      var h := Hart();
      hide RegistersMatch, CsrsMatch, FieldsMatch, Bus.Write8, Hart, PagedMemory.Memory.Valid, PagedMemory.Memory.View, PagedMemory.After;
      r := mem.Write8(h, address, value);
      AdoptMemory();
    }

    method Store16(address: bv32, value: bv32) returns (r: PagedMemory.Result<()>)
      requires Valid()
      modifies this`state, mem.Footprint()
      ensures Valid() && fresh(mem.Footprint() - old(mem.Footprint())) && state == old(state).(mem := state.mem)
      ensures PagedMemory.After(r, state.mem) == Bus.Write16(old(state).mem, Machine.HartOf(old(state)), address, value)
    {
      var h := Hart();
      hide RegistersMatch, CsrsMatch, FieldsMatch, Bus.Write16, Hart, PagedMemory.Memory.Valid, PagedMemory.Memory.View, PagedMemory.After;
      r := mem.Write16(h, address, value);
      AdoptMemory();
    }

    method Store32(address: bv32, value: bv32) returns (r: PagedMemory.Result<()>)
      requires Valid()
      modifies this`state, mem.Footprint()
      ensures Valid() && fresh(mem.Footprint() - old(mem.Footprint())) && state == old(state).(mem := state.mem)
      ensures PagedMemory.After(r, state.mem) == Bus.Write32(old(state).mem, Machine.HartOf(old(state)), address, value)
    {
      var h := Hart();
      hide RegistersMatch, CsrsMatch, FieldsMatch, Bus.Write32, Hart, PagedMemory.Memory.Valid, PagedMemory.Memory.View, PagedMemory.After;
      r := mem.Write32(h, address, value);
      AdoptMemory();
    }

    // ----- loads and stores --------------------------------------------------------

    method LoadValue(op: LOp, address: bv32) returns (r: PagedMemory.Result<bv32>)
      requires Valid()
      modifies this`state, mem`uartIn, mem`uartTxIrq
      ensures Valid() && state == old(state).(mem := state.mem)
      ensures PagedMemory.After(r, state.mem) == Machine.LoadAccess(old(state).mem, Machine.HartOf(old(state)), op, address)
    {
      hide Valid, Bus.Read8, Bus.Read16, Bus.Read32, Machine.HartOf, Alu.SignExtend8, Alu.SignExtend16;
      match op {
        case LB =>
          var b := Load8(address);
          r := if b.Ok? then PagedMemory.Ok(Alu.SignExtend8(b.value)) else PagedMemory.Thrown(b.address, b.kind);
        case LBU =>
          var b := Load8(address);
          r := if b.Ok? then PagedMemory.Ok(b.value as bv32) else PagedMemory.Thrown(b.address, b.kind);
        case LH =>
          var half := Load16(address);
          r := if half.Ok? then PagedMemory.Ok(Alu.SignExtend16(half.value)) else half;
        case LHU =>
          r := Load16(address);
        case LW =>
          r := Load32(address, false);
      }
    }

    method ExecuteLoad(op: LOp, rd: bv5, address: bv32) returns (e: Ended)
      requires Valid()
      modifies this`state, regs, mem`uartIn, mem`uartTxIrq
      ensures Valid() && OutcomeOf(e, state) == Machine.ExecLoad(old(state), op, rd, address)
    {
      hide Valid, Machine.LoadAccess, Machine.HartOf, Machine.WriteRegister;
      var r := LoadValue(op, address);
      if r.Thrown? {
        return Threw(r.address, r.kind);
      }
      SetRegister(rd, r.value);
      e := Completed;
    }

    method StoreValue(op: SOp, address: bv32, value: bv32) returns (r: PagedMemory.Result<()>)
      requires Valid()
      modifies this`state, mem.Footprint()
      ensures Valid() && fresh(mem.Footprint() - old(mem.Footprint())) && state == old(state).(mem := state.mem)
      ensures PagedMemory.After(r, state.mem) == Machine.StoreAccess(old(state).mem, Machine.HartOf(old(state)), op, address, value)
    {
      hide Valid, Bus.Write8, Bus.Write16, Bus.Write32, Machine.HartOf, ByteOf;
      match op {
        case SB => r := Store8(address, ByteOf(value, 0));
        case SH => r := Store16(address, value);
        case SW => r := Store32(address, value);
      }
    }

    method ExecuteStore(op: SOp, address: bv32, value: bv32) returns (e: Ended)
      requires Valid()
      modifies this`state, this`reservationValid, mem.Footprint()
      ensures Valid() && fresh(mem.Footprint() - old(mem.Footprint()))
      ensures OutcomeOf(e, state) == Machine.ExecStore(old(state), op, address, value)
    {
      hide Valid, Machine.StoreAccess, Machine.HartOf, Machine.NotifyStore, Machine.StoreSize;
      NotifyStore(address, Machine.StoreSize(op));
      var r := StoreValue(op, address, value);
      e := if r.Ok? then Completed else Threw(r.address, r.kind);
    }
  
    // ----- LR, SC and the AMOs -----------------------------------------------------

    method ExecuteLoadReserved(rd: bv5, address: bv32) returns (e: Ended)
      requires Valid()
      modifies this`state, this`reservationValid, this`reservationAddress, regs, mem`uartIn, mem`uartTxIrq
      ensures Valid() && OutcomeOf(e, state) == Machine.ExecLoadReserved(old(state), rd, address)
    {
      hide Valid, Bus.Read32, Bus.Translate;
      var r := Load32(address, false);
      if r.Thrown? {
        return Threw(r.address, r.kind);
      }
      var p := TranslateForLoad(address);
      if p.Thrown? {
        return Threw(p.address, p.kind);
      }
      MakeReservation(p.value);
      SetRegister(rd, r.value);
      e := Completed;
    }

    method StoreThenWrite(rd: bv5, address: bv32, value: bv32, result: bv32) returns (e: Ended)
      requires Valid()
      modifies this`state, regs, mem.Footprint()
      ensures Valid() && fresh(mem.Footprint() - old(mem.Footprint()))
      ensures OutcomeOf(e, state) == Machine.StoreThenWrite(old(state), rd, address, value, result)
    {
      hide Valid, Bus.Write32, Machine.HartOf, Machine.WriteRegister;
      var r := Store32(address, value);
      if r.Thrown? {
        return Threw(r.address, r.kind);
      }
      SetRegister(rd, result);
      e := Completed;
    }

    method ExecuteStoreConditional(rd: bv5, address: bv32, value: bv32) returns (e: Ended)
      requires Valid()
      modifies this`state, this`reservationValid, regs, mem.Footprint()
      ensures Valid() && fresh(mem.Footprint() - old(mem.Footprint()))
      ensures OutcomeOf(e, state) == Machine.ExecStoreConditional(old(state), rd, address, value)
    {
      hide Valid, Bus.Translate, Machine.HartOf, Machine.WriteRegister, Machine.StoreThenWrite;
      var p := TranslateForLoad(address);
      if p.Thrown? {
        return Threw(p.address, p.kind);
      }
      var isValid := CheckAndClearReservation(p.value);
      if isValid {
        e := StoreThenWrite(rd, address, value, 0);
      } else {
        SetRegister(rd, 1);
        e := Completed;
      }
    }

    method ExecuteAmo(op: AmoOp, rd: bv5, address: bv32, operand: bv32) returns (e: Ended)
      requires Valid()
      modifies this`state, this`reservationValid, regs, mem.Footprint()
      ensures Valid() && fresh(mem.Footprint() - old(mem.Footprint()))
      ensures OutcomeOf(e, state) == Machine.ExecAmo(old(state), op, rd, address, operand)
    {
      hide Valid, Bus.Read32, Machine.HartOf, Machine.NotifyStore, Machine.StoreThenWrite, Alu.AmoResult;
      var r := Load32(address, false);
      if r.Thrown? {
        return Threw(r.address, r.kind);
      }
      NotifyStore(address, 4);
      e := StoreThenWrite(rd, address, Alu.AmoResult(op, r.value, operand), r.value);
    }

    // ----- system instructions --------------------------------------------------------

    function Time(): (mtime: bv64)
      requires Valid()
      reads this, regs, csrUnit, csrUnit.csrs, mem, mem.disk, mem.uartRegs, mem.pages.Values
      ensures mtime == state.mem.dev.mtime
    {
      mem.mtime
    }

    method ReadCsr(a: bv12) returns (value: bv32)
      requires Valid()
      ensures value == Csr.Read(state.csr, state.mem.dev.mtime, a)
    {
      var mtime := Time();
      hide RegistersMatch, FieldsMatch, MemoryMatches, Separate, Csr.Read, Csr.CsrUnit.Valid, Time;
      value := csrUnit.ReadCsr(mtime, a);
    }

    method SetSatp(satp: bv32)
      requires Valid()
      modifies this`state, mem`currentSatp
      ensures Valid() && state == old(state).(mem := old(state).mem.(satp := satp))
    {
      hide RegistersMatch, CsrsMatch, FieldsMatch, Separate, PagedMemory.Memory.Valid, PagedMemory.Memory.View;
      mem.SetSatp(satp);
      AdoptMemory();
    }

    /** A CSR write as the CSR instructions make it. */
    method PutCsr(a: bv12, value: bv32)
      requires Valid()
      modifies this`state, csrUnit, csrUnit.csrs, mem`currentSatp
      ensures Valid() && state == Machine.PutCsr(old(state), a, value)
    {
      hide Valid, Csr.Write, Csr.Read;
      WriteCsr(a, value);
      if a == Csr.SATP {
        var satp := ReadCsr(Csr.SATP);
        SetSatp(satp);
      }
    }

    method ExecuteCsr(op: COp, rd: bv5, rs1: bv5, a: bv12, word: bv32) returns (e: Ended)
      requires Valid()
      modifies this, regs, csrUnit, csrUnit.csrs, mem`currentSatp
      ensures Valid() && OutcomeOf(e, state) == Machine.ExecCsr(old(state), op, rd, rs1, a, word)
    {
      assert mode == state.mode;
      hide Valid, Csr.CanAccess, Csr.Read, Machine.TakeTrap, Machine.PutCsr, Machine.WriteRegister, Machine.CsrResult, Machine.WritesCsr, Machine.IsImmediateForm, Register;
      e := Completed;
      if !Csr.CanAccess(a, mode, Machine.WritesCsr(op, rs1)) {
        TakeTrap(Machine.ILLEGAL_INSTRUCTION, word);
        return;
      }
      var current := ReadCsr(a);
      if Machine.WritesCsr(op, rs1) {
        var operand := if Machine.IsImmediateForm(op) then rs1 as bv32 else Register(rs1);
        PutCsr(a, Machine.CsrResult(op, current, operand));
      }
      SetRegister(rd, current);
    }

    method SupervisorReturn()
      requires Valid()
      modifies this`state, this`mode, this`pc, this`nextPc, csrUnit, csrUnit.csrs
      ensures Valid() && state == Machine.SupervisorReturn(old(state))
    {
      hide Valid, Csr.Write, Machine.PopSupervisor, GetCsr;
      var mstatus := GetCsr(Csr.MSTATUS);
      Enter(((mstatus >> 8) & 1) as bv2, GetCsr(Csr.SEPC));
      WriteCsr(Csr.MSTATUS, Machine.PopSupervisor(mstatus));
    }

    method MachineReturn()
      requires Valid()
      modifies this`state, this`mode, this`pc, this`nextPc, csrUnit, csrUnit.csrs
      ensures Valid() && state == Machine.MachineReturn(old(state))
    {
      hide Valid, Csr.Write, Machine.PopMachine, GetCsr;
      var mstatus := GetCsr(Csr.MSTATUS);
      Enter(((mstatus >> 11) & 3) as bv2, GetCsr(Csr.MEPC));
      WriteCsr(Csr.MSTATUS, Machine.PopMachine(mstatus));
    }

    /** The mode, for tests on it. */
    function Mode(): (m: Csr.Mode)
      requires Valid()
      reads this, regs, csrUnit, csrUnit.csrs, mem, mem.disk, mem.uartRegs, mem.pages.Values
      ensures m == state.mode
    {
      mode
    }

    method ExecuteMret(word: bv32)
      requires Valid()
      modifies this, csrUnit, csrUnit.csrs
      ensures Valid() && state == Machine.ExecMret(old(state), word)
    {
      hide Valid, Machine.TakeTrap, Machine.MachineReturn, Mode;
      if Mode() < Csr.MACHINE {
        TakeTrap(Machine.ILLEGAL_INSTRUCTION, word);
      } else {
        MachineReturn();
      }
    }

    method ExecuteSret(word: bv32)
      requires Valid()
      modifies this, csrUnit, csrUnit.csrs
      ensures Valid() && state == Machine.ExecSret(old(state), word)
    {
      hide Valid, Machine.TakeTrap, Machine.SupervisorReturn, Mode, GetCsr;
      if Mode() == Csr.USER || (Mode() == Csr.SUPERVISOR && GetCsr(Csr.MSTATUS) & Machine.TSR != 0) {
        TakeTrap(Machine.ILLEGAL_INSTRUCTION, word);
      } else {
        SupervisorReturn();
      }
    }

    method ExecuteSfence(word: bv32)
      requires Valid()
      modifies this, csrUnit, csrUnit.csrs
      ensures Valid() && state == Machine.ExecSfence(old(state), word)
    {
      hide Valid, Machine.TakeTrap, Mode;
      if Mode() < Csr.SUPERVISOR {
        TakeTrap(Machine.ILLEGAL_INSTRUCTION, word);
      }
    }
  
    // ----- the other instructions ------------------------------------------------------

    method ExecuteRegister(op: ROp, rd: bv5, a: bv32, b: bv32) returns (e: Ended)
      requires Valid()
      modifies this`state, regs
      ensures Valid() && OutcomeOf(e, state) == Machine.ExecRegister(old(state), op, rd, a, b)
    {
      hide Valid, Alu.Defined, Alu.RegisterResult, Machine.WriteRegister;
      if !Alu.Defined(op, b) {
        return NoMeaning;
      }
      SetRegister(rd, Alu.RegisterResult(op, a, b));
      e := Completed;
    }

    function Pc(): (value: bv32)
      requires Valid()
      reads this, regs, csrUnit, csrUnit.csrs, mem, mem.disk, mem.uartRegs, mem.pages.Values
      ensures value == state.pc
    {
      pc
    }

    function FallThroughPc(): (value: bv32)
      requires Valid()
      reads this, regs, csrUnit, csrUnit.csrs, mem, mem.disk, mem.uartRegs, mem.pages.Values
      ensures value == state.nextPc
    {
      nextPc
    }

    method ExecuteBranch(op: BOp, a: bv32, b: bv32, imm: bv32)
      requires Valid()
      modifies this`state, this`nextPc
      ensures Valid() && state == Machine.ExecBranch(old(state), op, a, b, imm)
    {
      hide Valid, Alu.BranchTaken, Machine.Offset, Pc;
      if Alu.BranchTaken(op, a, b) {
        SetNextPc(Machine.Offset(Pc(), imm));
      }
    }

    method ExecuteJump(rd: bv5, target: bv32)
      requires Valid()
      modifies this`state, this`nextPc, regs
      ensures Valid() && state == Machine.ExecJump(old(state), rd, target)
    {
      hide Valid, FallThroughPc, Machine.SetRegister;
      SetRegister(rd, FallThroughPc());
      SetNextPc(target);
    }

    /** Loads, stores, LR, SC and AMOs. */
    method ExecuteMemory(i: Instr, word: bv32) returns (e: Ended)
      requires Valid() && Effects.IsMemory(i)
      modifies this, regs, mem.Footprint()
      ensures Valid() && fresh(mem.Footprint() - old(mem.Footprint()))
      ensures OutcomeOf(e, state) == Machine.Exec(old(state), i, word)
    {
      hide Valid, Machine.Exec, Machine.ExecLoad, Machine.ExecStore, Machine.ExecLoadReserved, Machine.ExecStoreConditional, Machine.ExecAmo,
           Machine.Offset, Register, OutcomeOf;
      match i {
        case Load(op, rd, rs1, imm) =>
          ExecFacts.ExecOfLoad(state, op, rd, rs1, imm, word);
          e := ExecuteLoad(op, rd, Machine.Offset(Register(rs1), imm));
        case Store(op, rs1, rs2, imm) =>
          ExecFacts.ExecOfStore(state, op, rs1, rs2, imm, word);
          e := ExecuteStore(op, Machine.Offset(Register(rs1), imm), Register(rs2));
        case LoadReserved(rd, rs1) =>
          ExecFacts.ExecOfLoadReserved(state, rd, rs1, word);
          e := ExecuteLoadReserved(rd, Register(rs1));
        case StoreConditional(rd, rs1, rs2) =>
          ExecFacts.ExecOfStoreConditional(state, rd, rs1, rs2, word);
          e := ExecuteStoreConditional(rd, Register(rs1), Register(rs2));
        case Amo(op, rd, rs1, rs2) =>
          ExecFacts.ExecOfAmo(state, op, rd, rs1, rs2, word);
          e := ExecuteAmo(op, rd, Register(rs1), Register(rs2));
      }
    }

    method ExecuteSystem(i: Instr, word: bv32) returns (e: Ended)
      requires Valid() && Effects.IsSystem(i)
      modifies this, regs, csrUnit, csrUnit.csrs, mem`currentSatp
      ensures Valid() && OutcomeOf(e, state) == Machine.Exec(old(state), i, word)
    {
      hide Valid, Machine.Exec, Machine.ExecCsr, Machine.ExecMret, Machine.ExecSret, Machine.ExecSfence, Machine.TakeTrap, Machine.EcallCause, Mode;
      e := Completed;
      match i {
        case CsrAccess(op, rd, rs1, a) =>
          ExecFacts.ExecOfCsr(state, op, rd, rs1, a, word);
          e := ExecuteCsr(op, rd, rs1, a, word);
        case Ecall =>
          ExecFacts.ExecOfTrap(state, i, word);
          TakeTrap(Machine.EcallCause(Mode()), 0);
        case Ebreak =>
          ExecFacts.ExecOfTrap(state, i, word);
          TakeTrap(Machine.BREAKPOINT, 0);
        case Mret =>
          ExecFacts.ExecOfPrivileged(state, i, word);
          ExecuteMret(word);
        case Sret =>
          ExecFacts.ExecOfPrivileged(state, i, word);
          ExecuteSret(word);
        case SfenceVma =>
          ExecFacts.ExecOfPrivileged(state, i, word);
          ExecuteSfence(word);
      }
    }

    /** Everything else: registers and nextPc only. */
    method ExecutePlain(i: Instr, word: bv32) returns (e: Ended)
      requires Valid() && !Effects.IsMemory(i) && !Effects.IsSystem(i)
      modifies this`state, this`nextPc, regs
      ensures Valid() && OutcomeOf(e, state) == Machine.Exec(old(state), i, word)
    {
      hide Valid, Machine.ExecLoad, Machine.ExecStore, Machine.ExecLoadReserved, Machine.ExecStoreConditional, Machine.ExecAmo,
           Machine.ExecCsr, Machine.ExecMret, Machine.ExecSret, Machine.ExecSfence, Machine.TakeTrap, Machine.EcallCause,
           Machine.ExecRegister, Machine.ExecBranch, Machine.ExecJump, Machine.WriteRegister, Machine.Offset, Machine.EvenTarget,
           Alu.ImmediateResult, Register, Pc;
      e := Completed;
      match i {
        case Register(op, rd, rs1, rs2) => e := ExecuteRegister(op, rd, Register(rs1), Register(rs2));
        case Branch(op, rs1, rs2, imm) => ExecuteBranch(op, Register(rs1), Register(rs2), imm);
        case Immediate(op, rd, rs1, imm) => SetRegister(rd, Alu.ImmediateResult(op, Register(rs1), imm));
        case Jal(rd, imm) => ExecuteJump(rd, Machine.Offset(Pc(), imm));
        case Jalr(rd, rs1, imm) => ExecuteJump(rd, Machine.EvenTarget(Register(rs1), imm));
        case Lui(rd, imm) => SetRegister(rd, imm);
        case Auipc(rd, imm) => SetRegister(rd, Machine.Offset(Pc(), imm));
        case Illegal => e := Unknown;
        case _ =>
      }
    }

    method Execute(i: Instr, word: bv32) returns (e: Ended)
      requires Valid()
      modifies this, regs, csrUnit, csrUnit.csrs, mem.Footprint()
      ensures Valid() && fresh(mem.Footprint() - old(mem.Footprint()))
      ensures OutcomeOf(e, state) == Machine.Exec(old(state), i, word)
    {
      hide Valid, Machine.Exec, Effects.IsMemory, Effects.IsSystem, OutcomeOf;
      if Effects.IsMemory(i) {
        e := ExecuteMemory(i, word);
      } else if Effects.IsSystem(i) {
        e := ExecuteSystem(i, word);
      } else {
        e := ExecutePlain(i, word);
      }
    }
  
    // ----- the step loop -----------------------------------------------------------------

    method AdvancePc()
      requires Valid()
      modifies this`state, this`pc
      ensures Valid() && state == old(state).(pc := old(state).nextPc)
    {
      hide RegistersMatch, CsrsMatch, MemoryMatches, Separate;
      pc := nextPc;
      state := state.(pc := nextPc);
    }

    method IncrementTime()
      requires Valid()
      modifies this`state, mem`mtime
      ensures Valid()
      ensures var d := old(state).mem.dev;
        state == old(state).(mem := old(state).mem.(dev := d.(mtime := d.mtime + 1)))
    {
      hide RegistersMatch, CsrsMatch, FieldsMatch, Separate, PagedMemory.Memory.Valid;
      mem.IncrementTime();
      AdoptMemory();
    }

    function TimeCompare(): (compare: bv64)
      requires Valid()
      reads this, regs, csrUnit, csrUnit.csrs, mem, mem.disk, mem.uartRegs, mem.pages.Values
      ensures compare == state.mem.dev.mtimecmp
    {
      mem.mtimecmp
    }

    method ConsolePending() returns (pending: bool)
      requires Valid()
      ensures pending == Mmio.UartIrqPending(state.mem.dev)
    {
      assert mem.Valid() && mem.DeviceView() == state.mem.dev;
      hide *;
      pending := mem.IsUartIrqPending();
    }

    method SetMip(value: bv32)
      requires Valid()
      modifies this`state, csrUnit, csrUnit.csrs
      ensures Valid() && state == old(state).(csr := Csr.Set(old(state).csr, Csr.MIP, value))
    {
      hide RegistersMatch, MemoryMatches, Csr.Set;
      csrUnit.SetMip(value);
      state := state.(csr := csrUnit.file);
    }

    method RefreshMip()
      requires Valid()
      modifies this`state, csrUnit, csrUnit.csrs
      ensures Valid() && state == old(state).(csr := Csr.Set(old(state).csr, Csr.MIP, Machine.PendingAfter(old(state))))
    {
      hide Valid, Csr.Set, Machine.SetBit, Machine.TimerDue, Machine.Join, Mmio.UartIrqPending, GetCsr, Time, TimeCompare;
      var mtime := Time();
      var console := ConsolePending();
      var mip := Machine.SetBit(GetCsr(Csr.MIP), 0x080, Machine.TimerDue(mtime, TimeCompare()));
      var stimecmp := Machine.Join(GetCsr(Csr.STIMECMP), GetCsr(Csr.STIMECMPH));
      mip := Machine.SetBit(mip, 0x020, Machine.TimerDue(mtime, stimecmp));
      mip := Machine.SetBit(mip, 0xA00, console);
      SetMip(mip);
    }

    method Settle()
      requires Valid()
      modifies this`state, this`pc, csrUnit, csrUnit.csrs, mem`mtime
      ensures Valid() && state == Machine.Settle(old(state))
    {
      hide Valid, Csr.Set, Machine.PendingAfter;
      AdvancePc();
      IncrementTime();
      RefreshMip();
    }

    function PendingInterrupt(): (cause: bv32)
      requires Valid()
      reads this, regs, csrUnit, csrUnit.csrs, mem, mem.disk, mem.uartRegs, mem.pages.Values
      ensures cause == Machine.InterruptOf(state)
    {
      Machine.SelectInterrupt(mode, GetCsr(Csr.MSTATUS), GetCsr(Csr.MIP) & GetCsr(Csr.MIE))
    }

    method Deliver()
      requires Valid()
      modifies this, csrUnit, csrUnit.csrs
      ensures Valid() && state == Machine.Deliver(old(state))
    {
      hide Valid, Machine.TakeTrap, Machine.InterruptOf, PendingInterrupt;
      var cause := PendingInterrupt();
      if cause != Machine.NO_INTERRUPT {
        TakeTrap(Machine.INTERRUPT | cause, 0);
      }
    }

    predicate Overread()
      requires Valid()
      reads this, regs, csrUnit, csrUnit.csrs, mem, mem.disk, mem.uartRegs, mem.pages.Values
      ensures Overread() == state.mem.dev.spi.lost
    {
      mem.spiLost
    }

    /** What follows the execution of the instruction whose word, as fetched, was `raw`. */
    method Finish(e: Ended, raw: bv32) returns (t: TurnEnd)
      requires Valid()
      modifies this, csrUnit, csrUnit.csrs, mem`mtime
      ensures Valid()
      ensures TurnOf(t, state) == Machine.Finish(OutcomeOf(e, old(state)), raw)
    {
      hide Valid, Machine.TakeTrap, Machine.Settle, Machine.Deliver, Machine.PageFaultCause, Overread;
      t := Turning;
      if Overread() {
        return Meaningless;
      }
      match e {
        case Completed =>
          Settle();
          Deliver();
        case Unknown =>
          TakeTrap(Machine.ILLEGAL_INSTRUCTION, raw);
        case Threw(address, kind) =>
          TakeTrap(Machine.PageFaultCause(kind), address);
        case NoMeaning =>
          t := Meaningless;
      }
    }
  
    /** The turn after `raw` was fetched and nextPc set. */
    method Dispatch(raw: bv32) returns (t: TurnEnd)
      requires Valid()
      modifies this, regs, csrUnit, csrUnit.csrs, mem.Footprint()
      ensures Valid() && fresh(mem.Footprint() - old(mem.Footprint()))
      ensures TurnOf(t, state) == Machine.Dispatch(old(state), raw)
    {
      hide Valid, Machine.Exec, Machine.Finish, Machine.Expand, Decode, OutcomeOf, Pc;
      var word := Machine.Expand(raw);
      if word == 0 && Pc() == 0 {
        return Stopped;
      }
      var e := Execute(Decode(word), word);
      t := Finish(e, raw);
    }

    /** One turn: fetch, execute, time, interrupts; page faults end in a trap. */
    method Step() returns (t: TurnEnd)
      requires Valid()
      modifies this, regs, csrUnit, csrUnit.csrs, mem.Footprint()
      ensures Valid() && fresh(mem.Footprint() - old(mem.Footprint()))
      ensures TurnOf(t, state) == Machine.Step(old(state))
    {
      hide Valid, Machine.Dispatch, Bus.Read32, Machine.HartOf, Machine.TakeTrap, Machine.PageFaultCause, Machine.FallThrough, Pc;
      var r := Load32(Pc(), true);
      if r.Thrown? {
        TakeTrap(Machine.PageFaultCause(r.kind), r.address);
        return Turning;
      }
      SetNextPc(Machine.FallThrough(Pc(), r.value));
      t := Dispatch(r.value);
    }

    method PollKeyboard(key: Mmio.Option<bv32>)
      requires Valid()
      modifies this`state, mem`uartIn
      ensures Valid() && state == Machine.Poll(old(state), key)
    {
      hide RegistersMatch, CsrsMatch, FieldsMatch, Separate, PagedMemory.Memory.Valid, Mmio.Poll;
      if key.Some? {
        mem.Poll(key.value);
        AdoptMemory();
      }
    }

    /** The loop, for as many turns as there are keyboard inputs; a halted loop stays halted. */
    method Run(keys: seq<Mmio.Option<bv32>>) returns (t: TurnEnd)
      requires Valid()
      modifies this, regs, csrUnit, csrUnit.csrs, mem.Footprint()
      ensures Valid() && fresh(mem.Footprint() - old(mem.Footprint()))
      ensures TurnOf(t, state) == Machine.Turns(old(state), keys)
    {
      hide Valid, Machine.Step, Machine.Poll;
      t := Turning;
      var i := 0;
      while i < |keys| && t == Turning
        invariant 0 <= i <= |keys| && Valid()
        invariant fresh(mem.Footprint() - old(mem.Footprint()))
        invariant Machine.Turns(old(state), keys) == if t == Turning then Machine.Turns(state, keys[i..]) else TurnOf(t, state)
      {
        PollKeyboard(keys[i]);
        t := Step();
        i := i + 1;
      }
    }

    method ClearRegisters()
      requires Valid()
      modifies this`state, regs
      ensures Valid() && state == old(state).(regs := Machine.ResetRegisters())
    {
      hide CsrsMatch, MemoryMatches;
      for i := 0 to 32
        invariant state == old(state) && forall j :: 0 <= j < i ==> regs[j] == 0
      {
        regs[i] := 0;
      }
      regs[2] := Machine.STACK_TOP;
      forall r: bv5
        ensures regs[r as nat] == Machine.ResetRegister(r)
      {
        if r as nat == (2 as bv5) as nat { RegisterInjective(r, 2); }
      }
      state := state.(regs := Machine.ResetRegisters());
    }

    method ClearMemory()
      requires Valid()
      modifies this`state, mem.Footprint()
      ensures Valid() && fresh(mem.Footprint() - old(mem.Footprint()))
      ensures state == old(state).(mem := old(state).mem.(ram := Bus.Zeroes(), satp := 0))
    {
      hide RegistersMatch, CsrsMatch, FieldsMatch, PagedMemory.Memory.Valid, PagedMemory.Memory.View;
      mem.Reset();
      AdoptMemory();
    }

    method ClearCsrs()
      requires Valid()
      modifies this`state, csrUnit, csrUnit.csrs
      ensures Valid() && state == old(state).(csr := Csr.ResetFile())
    {
      hide RegistersMatch, MemoryMatches;
      csrUnit.Reset();
      state := state.(csr := csrUnit.file);
    }

    method ClearControl()
      requires Valid()
      modifies this`state, this`mode, this`pc, this`reservationValid
      ensures Valid() && state == old(state).(mode := Csr.MACHINE, pc := Machine.RAM_BASE, reserved := false)
    {
      hide RegistersMatch, CsrsMatch, MemoryMatches;
      mode, pc, reservationValid := Csr.MACHINE, Machine.RAM_BASE, false;
      state := state.(mode := Csr.MACHINE, pc := Machine.RAM_BASE, reserved := false);
    }

    /** Power-on state; the devices and nextPc keep theirs. */
    method Reset()
      requires Valid()
      modifies this, regs, csrUnit, csrUnit.csrs, mem.Footprint()
      ensures Valid() && fresh(mem.Footprint() - old(mem.Footprint()))
      ensures state == Machine.Reset(old(state))
    {
      hide Valid;
      ClearRegisters();
      ClearControl();
      ClearMemory();
      ClearCsrs();
    }
  }
}
