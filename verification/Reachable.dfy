/** What holds in every state reachable from reset. */
module Reachable {
  import opened Effects
  import opened ExecFacts
  import opened Isa
  import opened Machine
  import Bus
  import BusFacts
  import Csr
  import Mmio
  import Sv32Manual

  /** mstatus has no bit outside its mask, and MPP is not the reserved mode. */
  predicate MstatusOk(mstatus: bv32) {
    mstatus & !Csr.MSTATUS_MASK == 0 && mstatus & Csr.MPP_MASK != Csr.MPP_RESERVED
  }

  /** Nothing ever changes misa or a CSR whose number marks it read-only. */
  ghost predicate ConstantsKept(f: Csr.File) {
    f(Csr.MISA) == Csr.MISA_VALUE && forall a: bv12 :: Csr.IsReadOnly(a) ==> f(a) == Csr.ResetValue(a)
  }

  ghost predicate FileOk(f: Csr.File) {
    MstatusOk(f(Csr.MSTATUS)) && ConstantsKept(f)
  }

  ghost predicate Inv(s: State) {
    && s.regs(0) == 0
    && s.mode != Csr.RESERVED
    && FileOk(s.csr)
    && s.mem.satp == s.csr(Csr.SATP)
  }

  // ----- CSR writes ----------------------------------------------------------

  lemma LegalMstatusOk(value: bv32)
    ensures MstatusOk(Csr.LegalMstatus(value))
  {
  }

  lemma MergedMstatusOk(current: bv32, value: bv32)
    requires MstatusOk(current)
    ensures MstatusOk(Csr.Merge(current, value, Csr.SSTATUS_MASK))
  {
  }

  lemma WriteMstatusOk(f: Csr.File, a: bv12, value: bv32)
    requires MstatusOk(f(Csr.MSTATUS))
    ensures MstatusOk(Csr.Write(f, a, value)(Csr.MSTATUS))
  {
    hide MstatusOk, Csr.LegalMstatus, Csr.Merge, Csr.IsReadOnly;
    LegalMstatusOk(value);
    MergedMstatusOk(f(Csr.MSTATUS), value);
  }

  lemma TargetIsWritable(a: bv12)
    requires !Csr.IsReadOnly(a) && a != Csr.MISA
    ensures !Csr.IsReadOnly(Csr.Target(a)) && Csr.Target(a) != Csr.MISA
    ensures a != Csr.SATP ==> Csr.Target(a) != Csr.SATP
  {
  }

  lemma WriteKeepsConstants(f: Csr.File, a: bv12, value: bv32)
    requires ConstantsKept(f)
    ensures ConstantsKept(Csr.Write(f, a, value))
    ensures a != Csr.SATP ==> Csr.Write(f, a, value)(Csr.SATP) == f(Csr.SATP)
  {
    hide Csr.IsReadOnly, Csr.Target, Csr.Stored, Csr.ResetValue;
    if !Csr.IsReadOnly(a) && a != Csr.MISA {
      TargetIsWritable(a);
    }
  }

  /** Every CSR write keeps the file legal, and only a write to satp changes satp. */
  lemma WriteKeepsFile(f: Csr.File, a: bv12, value: bv32)
    requires FileOk(f)
    ensures FileOk(Csr.Write(f, a, value))
    ensures a != Csr.SATP ==> Csr.Write(f, a, value)(Csr.SATP) == f(Csr.SATP)
  {
    hide MstatusOk, ConstantsKept, Csr.Write;
    WriteMstatusOk(f, a, value);
    WriteKeepsConstants(f, a, value);
  }

  // ----- traps and returns -----------------------------------------------------

  lemma SupervisorTrapFile(s: State, cause: bv32, value: bv32)
    requires FileOk(s.csr)
    ensures FileOk(SupervisorTrapCsrs(s, cause, value))
    ensures SupervisorTrapCsrs(s, cause, value)(Csr.SATP) == s.csr(Csr.SATP)
  {
    hide FileOk, Csr.Write, PushSupervisor, CauseBit;
    WriteKeepsFile(s.csr, Csr.SIP, CauseBit(cause));
    var f0 := if cause & INTERRUPT != 0 then Csr.Write(s.csr, Csr.SIP, CauseBit(cause)) else s.csr;
    var f1 := Csr.Write(f0, Csr.SEPC, s.pc);
    var f2 := Csr.Write(f1, Csr.SCAUSE, cause);
    var f3 := Csr.Write(f2, Csr.STVAL, value);
    WriteKeepsFile(f0, Csr.SEPC, s.pc);
    WriteKeepsFile(f1, Csr.SCAUSE, cause);
    WriteKeepsFile(f2, Csr.STVAL, value);
    WriteKeepsFile(f3, Csr.SSTATUS, PushSupervisor(f3(Csr.MSTATUS) & Csr.SSTATUS_MASK, s.mode));
  }

  lemma MachineTrapFile(s: State, cause: bv32, value: bv32)
    requires FileOk(s.csr)
    ensures FileOk(MachineTrapCsrs(s, cause, value))
    ensures MachineTrapCsrs(s, cause, value)(Csr.SATP) == s.csr(Csr.SATP)
  {
    hide FileOk, Csr.Write, PushMachine;
    var f1 := Csr.Write(s.csr, Csr.MEPC, s.pc);
    var f2 := Csr.Write(f1, Csr.MCAUSE, cause);
    var f3 := Csr.Write(f2, Csr.MTVAL, value);
    WriteKeepsFile(s.csr, Csr.MEPC, s.pc);
    WriteKeepsFile(f1, Csr.MCAUSE, cause);
    WriteKeepsFile(f2, Csr.MTVAL, value);
    WriteKeepsFile(f3, Csr.MSTATUS, PushMachine(f3(Csr.MSTATUS), s.mode));
  }

  lemma TrapKeepsInv(s: State, cause: bv32, value: bv32)
    requires Inv(s)
    ensures Inv(TakeTrap(s, cause, value))
  {
    hide FileOk, Delegated, SupervisorTrapCsrs, MachineTrapCsrs;
    SupervisorTrapFile(s, cause, value);
    MachineTrapFile(s, cause, value);
  }

  lemma PreviousMode(mstatus: bv32)
    requires MstatusOk(mstatus)
    ensures ((mstatus >> 11) & 3) as bv2 != Csr.RESERVED
  {
  }

  lemma MachineReturnKeepsInv(s: State)
    requires Inv(s)
    ensures Inv(MachineReturn(s))
  {
    PreviousMode(s.csr(Csr.MSTATUS));
    hide MstatusOk, ConstantsKept, Csr.Write, PopMachine;
    WriteKeepsFile(s.csr, Csr.MSTATUS, PopMachine(s.csr(Csr.MSTATUS)));
  }

  lemma SupervisorReturnKeepsInv(s: State)
    requires Inv(s)
    ensures Inv(SupervisorReturn(s))
  {
    hide FileOk, Csr.Write, PopSupervisor;
    WriteKeepsFile(s.csr, Csr.MSTATUS, PopSupervisor(s.csr(Csr.MSTATUS)));
  }

  // ----- instructions ----------------------------------------------------------

  lemma PutCsrKeepsInv(s: State, a: bv12, value: bv32)
    requires Inv(s)
    ensures Inv(PutCsr(s, a, value))
  {
    hide FileOk, Csr.Write;
    WriteKeepsFile(s.csr, a, value);
  }

  lemma WriteRegisterKeepsInv(s: State, rd: bv5, value: bv32)
    requires Inv(s)
    ensures Inv(WriteRegister(s, rd, value))
  {
    hide FileOk, SetRegister;
    RegisterZero(s.regs, rd);
  }

  lemma CsrKeepsInv(s: State, op: COp, rd: bv5, rs1: bv5, a: bv12, word: bv32)
    requires Inv(s)
    ensures Inv(After(ExecCsr(s, op, rd, rs1, a, word), s))
  {
    hide Inv, Csr.CanAccess, Csr.Read, TakeTrap, PutCsr, WriteRegister, CsrOperand, CsrResult;
    TrapKeepsInv(s, ILLEGAL_INSTRUCTION, word);
    var current := Csr.Read(s.csr, s.mem.dev.mtime, a);
    var value := CsrResult(op, current, CsrOperand(s, op, rs1));
    PutCsrKeepsInv(s, a, value);
    WriteRegisterKeepsInv(PutCsr(s, a, value), rd, current);
    WriteRegisterKeepsInv(s, rd, current);
  }

  lemma PrivilegedKeepsInv(s: State, word: bv32)
    requires Inv(s)
    ensures Inv(ExecMret(s, word)) && Inv(ExecSret(s, word)) && Inv(ExecSfence(s, word))
  {
    hide Inv, TakeTrap, MachineReturn, SupervisorReturn;
    TrapKeepsInv(s, ILLEGAL_INSTRUCTION, word);
    MachineReturnKeepsInv(s);
    SupervisorReturnKeepsInv(s);
  }

  lemma SystemKeepsInv(s: State, i: Instr, word: bv32)
    requires Inv(s) && IsSystem(i)
    ensures Inv(After(Exec(s, i, word), s))
  {
    hide Inv, Exec, ExecCsr, ExecMret, ExecSret, ExecSfence, TakeTrap, EcallCause;
    if i.CsrAccess? {
      ExecOfCsr(s, i.cop, i.rd, i.rs1, i.csr, word);
      CsrKeepsInv(s, i.cop, i.rd, i.rs1, i.csr, word);
    } else if i.Ecall? || i.Ebreak? {
      ExecOfTrap(s, i, word);
      TrapKeepsInv(s, if i.Ecall? then EcallCause(s.mode) else BREAKPOINT, 0);
    } else {
      ExecOfPrivileged(s, i, word);
      PrivilegedKeepsInv(s, word);
    }
  }

  lemma SameControlKeepsInv(s: State, t: State)
    requires Inv(s) && SameControl(s, t)
    ensures Inv(t)
  {
    hide FileOk;
  }

  lemma OtherKeepsInv(s: State, i: Instr, word: bv32)
    requires Inv(s) && !IsSystem(i)
    ensures Inv(After(Exec(s, i, word), s))
  {
    hide Inv, Exec, SameControl, IsMemory, IsSystem, CleanFault;
    if IsMemory(i) {
      MemoryKeeps(s, i, word);
    } else {
      PlainKeeps(s, i, word);
      JustRegistersIsSameControl(s, After(Exec(s, i, word), s));
    }
    SameControlKeepsInv(s, After(Exec(s, i, word), s));
  }

  lemma JustRegistersIsSameControl(s: State, t: State)
    requires JustRegisters(s, t)
    ensures SameControl(s, t)
  {
  }

  /** Every instruction keeps the invariant, whatever it does. */
  lemma ExecKeepsInv(s: State, i: Instr, word: bv32)
    requires Inv(s)
    ensures Inv(After(Exec(s, i, word), s))
  {
    hide *;
    if IsSystem(i) {
      SystemKeepsInv(s, i, word);
    } else {
      OtherKeepsInv(s, i, word);
    }
  }

  // ----- steps and runs ----------------------------------------------------------

  lemma SettleKeepsInv(s: State)
    requires Inv(s)
    ensures Inv(Settle(s))
  {
    hide MstatusOk, PendingAfter;
  }

  lemma DeliverKeepsInv(s: State)
    requires Inv(s)
    ensures Inv(Deliver(s))
  {
    hide Inv, InterruptOf, TakeTrap;
    TrapKeepsInv(s, INTERRUPT | InterruptOf(s), 0);
  }

  lemma DispatchKeepsInv(s: State, raw: bv32)
    requires Inv(s)
    ensures Dispatch(s, raw).Running? ==> Inv(Dispatch(s, raw).state)
  {
    hide Inv, Exec, Decode, Expand, Settle, Deliver, TakeTrap, PageFaultCause;
    var word := Expand(raw);
    ExecKeepsInv(s, Decode(word), word);
    match Exec(s, Decode(word), word)
    case Next(t) =>
      SettleKeepsInv(t);
      DeliverKeepsInv(Settle(t));
    case Rejected(t) => TrapKeepsInv(t, ILLEGAL_INSTRUCTION, raw);
    case Fault(a, k, t) => TrapKeepsInv(t, PageFaultCause(k), a);
    case Undefined =>
  }

  lemma FetchedKeepsInv(s: State, m: Bus.Mem, next: bv32)
    requires Inv(s) && BusFacts.OnlyDevice(s.mem, m)
    ensures Inv(s.(mem := m)) && Inv(s.(mem := m, nextPc := next))
  {
    hide FileOk;
  }

  lemma StepKeepsInv(s: State)
    requires Inv(s)
    ensures Step(s).Running? ==> Inv(Step(s).state)
  {
    hide Inv, Bus.Read32, HartOf, Dispatch, FallThrough, TakeTrap, PageFaultCause, BusFacts.OnlyDevice;
    BusFacts.Read32Frame(s.mem, HartOf(s), s.pc, true);
    match Bus.Read32(s.mem, HartOf(s), s.pc, true)
    case PageFault(a, k, m) =>
      FetchedKeepsInv(s, m, 0);
      TrapKeepsInv(s.(mem := m), PageFaultCause(k), a);
    case Done(raw, m) =>
      FetchedKeepsInv(s, m, FallThrough(s.pc, raw));
      DispatchKeepsInv(s.(mem := m, nextPc := FallThrough(s.pc, raw)), raw);
  }

  lemma PollKeepsInv(s: State, key: Mmio.Option<bv32>)
    requires Inv(s)
    ensures Inv(Poll(s, key))
  {
    hide FileOk;
  }

  lemma FollowsKeepsInv(s: State, t: State)
    requires Inv(s) && Follows(s, t)
    ensures Inv(t)
  {
    hide Inv, Step, Poll;
    var key: Mmio.Option<bv32> :| Step(Poll(s, key)) == Running(t);
    PollKeepsInv(s, key);
    StepKeepsInv(Poll(s, key));
  }

  /** The start of a run: reset, then a program loaded through the bus, which leaves satp alone,
      and pc set to its first instruction. */
  function Boot(s: State, m: Bus.Mem, start: bv32): State {
    Reset(s).(pc := start, mem := m)
  }

  lemma BootInv(s: State, m: Bus.Mem, start: bv32)
    requires m.satp == 0
    ensures Inv(Boot(s, m, start))
  {
  }

  lemma {:induction false} RunKeepsInv(run: seq<State>, i: nat)
    requires IsRun(run) && Inv(run[0]) && i < |run|
    ensures Inv(run[i])
  {
    hide Inv, Follows;
    if i > 0 {
      RunKeepsInv(run, i - 1);
      assert Follows(run[i - 1], run[i - 1 + 1]);
      FollowsKeepsInv(run[i - 1], run[i]);
    }
  }

  /** Every state of every run from reset, whatever program was loaded, satisfies the invariant. */
  lemma ReachableInv(s: State, m: Bus.Mem, start: bv32, run: seq<State>, i: nat)
    requires m.satp == 0 && IsRun(run) && run[0] == Boot(s, m, start) && i < |run|
    ensures Inv(run[i])
  {
    hide Inv, Boot, IsRun;
    BootInv(s, m, start);
    RunKeepsInv(run, i);
  }

  // ----- the SD card in reachable states -----------------------------------------------

  /** The SD card never read outside its disk. */
  predicate Meaningful(s: State) {
    !s.mem.dev.spi.lost
  }

  lemma TrapKeepsMemory(s: State, cause: bv32, value: bv32)
    ensures TakeTrap(s, cause, value).mem == s.mem
  {
    hide Delegated, SupervisorTrapCsrs, MachineTrapCsrs;
  }

  lemma FinishIsMeaningful(o: Outcome, raw: bv32)
    ensures Finish(o, raw).Running? ==> Meaningful(Finish(o, raw).state)
  {
    hide TakeTrap, InterruptOf, PendingAfter, PageFaultCause;
    match o
    case Next(s) => TrapKeepsMemory(Settle(s), INTERRUPT | InterruptOf(Settle(s)), 0);
    case Rejected(s) => TrapKeepsMemory(s, ILLEGAL_INSTRUCTION, raw);
    case Fault(a, k, s) => TrapKeepsMemory(s, PageFaultCause(k), a);
    case Undefined =>
  }

  /** A turn that makes it do so has no successor, so no state of a run follows one. */
  lemma StepIsMeaningful(s: State)
    requires Meaningful(s) && Step(s).Running?
    ensures Meaningful(Step(s).state)
  {
    hide Bus.Read32, HartOf, FallThrough, TakeTrap, PageFaultCause, Exec, Decode, Expand, Finish;
    BusFacts.Read32Frame(s.mem, HartOf(s), s.pc, true);
    match Bus.Read32(s.mem, HartOf(s), s.pc, true)
    case PageFault(a, k, m) => TrapKeepsMemory(s.(mem := m), PageFaultCause(k), a);
    case Done(raw, m) =>
      var s1, word := s.(mem := m, nextPc := FallThrough(s.pc, raw)), Expand(raw);
      FinishIsMeaningful(Exec(s1, Decode(word), word), raw);
  }

  lemma FollowsIsMeaningful(s: State, t: State)
    requires Meaningful(s) && Follows(s, t)
    ensures Meaningful(t)
  {
    hide Step;
    var key: Mmio.Option<bv32> :| Step(Poll(s, key)) == Running(t);
    StepIsMeaningful(Poll(s, key));
  }

  /** In every state of a run that starts without it, the card has not read outside its disk. */
  lemma {:induction false} RunIsMeaningful(run: seq<State>, i: nat)
    requires IsRun(run) && Meaningful(run[0]) && i < |run|
    ensures Meaningful(run[i])
  {
    hide Meaningful, Follows;
    if i > 0 {
      RunIsMeaningful(run, i - 1);
      assert Follows(run[i - 1], run[i - 1 + 1]);
      FollowsIsMeaningful(run[i - 1], run[i]);
    }
  }

  // ----- what it means for translation ------------------------------------------------

  lemma NoMxrNorMprv(mstatus: bv32)
    requires MstatusOk(mstatus)
    ensures mstatus & Sv32Manual.MSTATUS_MXR == 0 && mstatus & Bus.MSTATUS_MPRV == 0
  {
  }

  /** In every reachable state each access below M-mode with paging on is translated by the satp
      CSR's tables exactly as the manual's walk translates it, unless the root entry is write-only;
      and M-mode accesses are not translated at all. */
  lemma ReachableTranslation(s: State, va: bv32, kind: Bus.AccessType)
    requires Inv(s)
    ensures s.mode == Csr.MACHINE ==> Bus.Translate(s.mem, HartOf(s), va, kind) == Bus.Done(va, s.mem)
    ensures s.mode != Csr.MACHINE && s.csr(Csr.SATP) & 0x8000_0000 != 0 && !Sv32Manual.WriteOnly(Sv32Manual.RootEntry(s.mem, va)) ==>
      var manual := Sv32Manual.ManualTranslate(s.mem, s.mode, s.csr(Csr.MSTATUS), va, kind);
      Sv32Manual.SameAnswer(Bus.Translate(s.mem, HartOf(s), va, kind), manual.0, va, kind)
      && Bus.Translate(s.mem, HartOf(s), va, kind).mem == manual.1
  {
    NoMxrNorMprv(s.csr(Csr.MSTATUS));
    OwnMode(s, kind);
    hide MstatusOk, ConstantsKept, Bus.Frame, Bus.EffectiveMode, Sv32Manual.ManualTranslate, Sv32Manual.WriteOnly, Sv32Manual.RootEntry,
         Sv32Manual.SameAnswer, Bus.Compose;
    if s.mode != Csr.MACHINE && s.csr(Csr.SATP) & 0x8000_0000 != 0 && !Sv32Manual.WriteOnly(Sv32Manual.RootEntry(s.mem, va)) {
      hide Bus.Translate;
      Sv32Manual.TranslateAgrees(s.mem, HartOf(s), va, kind);
    }
  }

  /** MPRV never takes effect. */
  lemma OwnMode(s: State, kind: Bus.AccessType)
    requires MstatusOk(s.csr(Csr.MSTATUS))
    ensures Bus.EffectiveMode(HartOf(s), kind) == s.mode
  {
    NoMxrNorMprv(s.csr(Csr.MSTATUS));
    hide MstatusOk;
  }
}
