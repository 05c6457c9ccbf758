/** Traps and returns nest in the step loop: a supervisor handler can be interrupted by machine-level
    traps any number of times and still resumes what it interrupted. */
module Nesting {
  import opened Effects
  import opened ExecFacts
  import opened Interrupts
  import opened Isa
  import opened LrSc
  import opened Machine
  import opened Words
  import Bus
  import BusFacts
  import Csr
  import Mmio
  import Reachable
  import Traps

  /** The cause of the trap an instruction raises by itself. */
  function CauseInside(s: State, i: Instr): bv32 {
    if i.Ecall? then EcallCause(s.mode) else if i.Ebreak? then BREAKPOINT else ILLEGAL_INSTRUCTION
  }

  /** Some trap taken in the turn from `s` is delegated to S-mode. */
  predicate TrapsToSupervisor(s: State) {
    match Bus.Read32(s.mem, HartOf(s), s.pc, true)
    case PageFault(_, k, _) => Delegated(s, PageFaultCause(k))
    case Done(_, _) =>
      match Executing(s)
      case None => false
      case Some((s1, i, word)) => ExecTrapsToSupervisor(s1, i, Exec(s1, i, word))
  }

  predicate ExecTrapsToSupervisor(s: State, i: Instr, o: Outcome) {
    match o
    case Next(t) =>
      || (TrapsInside(s, i) && Delegated(s, CauseInside(s, i)))
      || (InterruptOf(Settle(t)) != NO_INTERRUPT && Delegated(Settle(t), INTERRUPT | InterruptOf(Settle(t))))
    case Rejected(t) => Delegated(t, ILLEGAL_INSTRUCTION)
    case Fault(_, k, t) => Delegated(t, PageFaultCause(k))
    case Undefined => false
  }

  /** The instruction is no SRET, and a CSR it writes keeps sepc, SPIE and SPP. */
  predicate SparesSupervisor(s: State, i: Instr) {
    match i
    case Sret => false
    case CsrAccess(op, _, rs1, a) =>
      WritesCsr(op, rs1) && Csr.CanAccess(a, s.mode, true) ==>
        SparesWrite(s, a, CsrResult(op, Csr.Read(s.csr, s.mem.dev.mtime, a), CsrOperand(s, op, rs1)))
    case _ => true
  }

  predicate SparesWrite(s: State, a: bv12, value: bv32) {
    && (a == Csr.SEPC ==> value == s.csr(Csr.SEPC))
    && (a == Csr.MSTATUS || a == Csr.SSTATUS ==> value & Traps.SUPERVISOR_SAVED == s.csr(Csr.MSTATUS) & Traps.SUPERVISOR_SAVED)
  }

  predicate Spares(s: State) {
    match Executing(s)
    case None => true
    case Some((s1, i, _)) => SparesSupervisor(s1, i)
  }

  /** `t` can return to where `s` was interrupted. */
  ghost predicate Remembers(t: State, s: State) {
    Traps.Legal(t) && Traps.HoldsSupervisor(t, s)
  }

  // ----- one event ----------------------------------------------------------------

  lemma KeptRemembers(t: State, u: State, s: State)
    requires Remembers(t, s) && u.mode == t.mode && Traps.KeepsSupervisor(t, u)
    requires Reachable.MstatusOk(u.csr(Csr.MSTATUS))
    ensures Remembers(u, s)
  {
    hide Reachable.MstatusOk, Traps.HoldsSupervisor, Traps.KeepsSupervisor;
    Traps.HoldsTransfers(t, u, s);
  }

  lemma SameRemembers(t: State, u: State, s: State)
    requires Remembers(t, s) && u.mode == t.mode
    requires u.csr(Csr.MSTATUS) == t.csr(Csr.MSTATUS) && u.csr(Csr.SEPC) == t.csr(Csr.SEPC)
    ensures Remembers(u, s)
  {
    hide Reachable.MstatusOk, Bit, Traps.Spp;
  }

  lemma TrapRemembers(t: State, s: State, cause: bv32, value: bv32)
    requires Remembers(t, s) && !Delegated(t, cause)
    ensures Remembers(TakeTrap(t, cause, value), s)
  {
    hide Delegated, TakeTrap, Traps.Legal, Traps.HoldsSupervisor, Traps.KeepsSupervisor;
    Traps.MachineTrapIsExcursion(t, cause, value);
    Traps.HoldsTransfers(t, TakeTrap(t, cause, value), s);
  }

  lemma MretRemembers(t: State, s: State, word: bv32)
    requires Remembers(t, s) && (TrapsInside(t, Mret) ==> !Delegated(t, ILLEGAL_INSTRUCTION))
    ensures Remembers(ExecMret(t, word), s)
  {
    hide Delegated, TakeTrap, MachineReturn, Traps.Legal, Traps.HoldsSupervisor, Traps.KeepsSupervisor;
    if t.mode < Csr.MACHINE {
      TrapRemembers(t, s, ILLEGAL_INSTRUCTION, word);
    } else {
      Traps.MachineReturnIsExcursion(t);
      Traps.HoldsTransfers(t, MachineReturn(t), s);
    }
  }

  lemma LegalSaved(value: bv32)
    ensures Csr.LegalMstatus(value) & Traps.SUPERVISOR_SAVED == value & Traps.SUPERVISOR_SAVED
  {
  }

  lemma MergedSaved(current: bv32, value: bv32)
    ensures Csr.Merge(current, value, Csr.SSTATUS_MASK) & Traps.SUPERVISOR_SAVED == value & Traps.SUPERVISOR_SAVED
  {
  }

  lemma WriteKeepsSaved(s: State, a: bv12, value: bv32)
    requires SparesWrite(s, a, value)
    ensures var f := Csr.Write(s.csr, a, value);
      f(Csr.SEPC) == s.csr(Csr.SEPC) && f(Csr.MSTATUS) & Traps.SUPERVISOR_SAVED == s.csr(Csr.MSTATUS) & Traps.SUPERVISOR_SAVED
  {
    hide Csr.LegalMstatus, Csr.Merge, Csr.IsReadOnly;
    LegalSaved(value);
    MergedSaved(s.csr(Csr.MSTATUS), value);
  }

  lemma PutCsrRemembers(t: State, s: State, a: bv12, value: bv32)
    requires Remembers(t, s) && SparesWrite(t, a, value)
    ensures Remembers(PutCsr(t, a, value), s)
  {
    WriteKeepsSaved(t, a, value);
    Reachable.WriteMstatusOk(t.csr, a, value);
    hide Csr.Write, SparesWrite, Reachable.MstatusOk, Traps.HoldsSupervisor;
    KeptRemembers(t, PutCsr(t, a, value), s);
  }

  lemma WriteRemembers(t: State, s: State, rd: bv5, value: bv32)
    requires Remembers(t, s)
    ensures Remembers(WriteRegister(t, rd, value), s)
  {
    hide Remembers, SetRegister;
    SameRemembers(t, WriteRegister(t, rd, value), s);
  }

  lemma CanAlsoRead(a: bv12, mode: Csr.Mode, isWrite: bool)
    ensures isWrite && Csr.CanAccess(a, mode, isWrite) ==> Csr.CanAccess(a, mode, true)
  {
  }

  lemma CsrRemembers(t: State, s: State, op: COp, rd: bv5, rs1: bv5, a: bv12, word: bv32)
    requires Remembers(t, s) && SparesSupervisor(t, CsrAccess(op, rd, rs1, a))
    requires TrapsInside(t, CsrAccess(op, rd, rs1, a)) ==> !Delegated(t, ILLEGAL_INSTRUCTION)
    ensures Remembers(After(ExecCsr(t, op, rd, rs1, a, word), t), s)
  {
    hide Remembers, Delegated, SparesWrite, Csr.CanAccess, Csr.Read, TakeTrap, CsrOperand, CsrResult, WritesCsr, WriteRegister, PutCsr;
    CanAlsoRead(a, t.mode, WritesCsr(op, rs1));
    var current := Csr.Read(t.csr, t.mem.dev.mtime, a);
    var value := CsrResult(op, current, CsrOperand(t, op, rs1));
    if !Csr.CanAccess(a, t.mode, WritesCsr(op, rs1)) {
      TrapRemembers(t, s, ILLEGAL_INSTRUCTION, word);
    } else if WritesCsr(op, rs1) {
      PutCsrRemembers(t, s, a, value);
      WriteRemembers(PutCsr(t, a, value), s, rd, current);
    } else {
      WriteRemembers(t, s, rd, current);
    }
  }

  lemma SfenceRemembers(t: State, s: State, word: bv32)
    requires Remembers(t, s) && (TrapsInside(t, SfenceVma) ==> !Delegated(t, ILLEGAL_INSTRUCTION))
    ensures Remembers(ExecSfence(t, word), s)
  {
    hide Remembers, Delegated, TakeTrap;
    if t.mode < Csr.SUPERVISOR {
      TrapRemembers(t, s, ILLEGAL_INSTRUCTION, word);
    }
  }

  lemma SystemRemembers(t: State, s: State, i: Instr, word: bv32)
    requires Remembers(t, s) && IsSystem(i) && SparesSupervisor(t, i)
    requires TrapsInside(t, i) ==> !Delegated(t, CauseInside(t, i))
    ensures Remembers(After(Exec(t, i, word), t), s)
  {
    hide Remembers, Delegated, SparesWrite, Exec, ExecCsr, ExecMret, ExecSret, ExecSfence, TakeTrap, EcallCause, Csr.CanAccess, WritesCsr;
    if i.CsrAccess? {
      ExecOfCsr(t, i.cop, i.rd, i.rs1, i.csr, word);
      CsrRemembers(t, s, i.cop, i.rd, i.rs1, i.csr, word);
    } else if i.Mret? {
      ExecOfPrivileged(t, i, word);
      MretRemembers(t, s, word);
    } else if i.SfenceVma? {
      ExecOfPrivileged(t, i, word);
      SfenceRemembers(t, s, word);
    } else {
      ExecOfTrap(t, i, word);
      TrapRemembers(t, s, CauseInside(t, i), 0);
    }
  }

  lemma OtherRemembers(t: State, s: State, i: Instr, word: bv32)
    requires Remembers(t, s) && !IsSystem(i)
    ensures Remembers(After(Exec(t, i, word), t), s)
  {
    hide Remembers, Exec, IsMemory, IsSystem, CleanFault, After, BusFacts.SameSatp;
    if IsMemory(i) {
      MemoryKeeps(t, i, word);
    } else {
      PlainKeeps(t, i, word);
    }
    SameRemembers(t, After(Exec(t, i, word), t), s);
  }

  lemma ExecRemembers(t: State, s: State, i: Instr, word: bv32)
    requires Remembers(t, s) && SparesSupervisor(t, i)
    requires TrapsInside(t, i) ==> !Delegated(t, CauseInside(t, i))
    ensures Remembers(After(Exec(t, i, word), t), s)
  {
    hide *;
    if IsSystem(i) {
      SystemRemembers(t, s, i, word);
    } else {
      OtherRemembers(t, s, i, word);
    }
  }

  lemma SettleRemembers(t: State, s: State)
    requires Remembers(t, s)
    ensures Remembers(Settle(t), s)
  {
    hide Remembers, PendingAfter;
    SameRemembers(t, Settle(t), s);
  }

  // ----- one turn -----------------------------------------------------------------

  lemma InsideOnlyNext(t: State, i: Instr, word: bv32)
    ensures TrapsInside(t, i) ==> Exec(t, i, word).Next?
  {
    hide Exec, Csr.CanAccess, WritesCsr, TakeTrap, ExecCsr, ExecMret, ExecSret, ExecSfence, EcallCause;
    if i.CsrAccess? {
      ExecOfCsr(t, i.cop, i.rd, i.rs1, i.csr, word);
      CsrEnds(t, i.cop, i.rd, i.rs1, i.csr, word);
    } else if i.Ecall? || i.Ebreak? {
      ExecOfTrap(t, i, word);
    } else if i.Mret? || i.Sret? || i.SfenceVma? {
      ExecOfPrivileged(t, i, word);
    }
  }

  lemma CsrEnds(t: State, op: COp, rd: bv5, rs1: bv5, a: bv12, word: bv32)
    ensures ExecCsr(t, op, rd, rs1, a, word).Next?
  {
    hide Csr.CanAccess, Csr.Read, TakeTrap, CsrOperand, CsrResult, WritesCsr, WriteRegister, PutCsr;
  }

  lemma OutcomeRemembers(t: State, s: State, i: Instr, o: Outcome, raw: bv32)
    requires Remembers(After(o, t), s) && !ExecTrapsToSupervisor(t, i, o)
    ensures Finish(o, raw).Running? ==> Remembers(Finish(o, raw).state, s)
  {
    hide Remembers, Delegated, TrapsInside, CauseInside, Settle, TakeTrap, InterruptOf, PageFaultCause, Overread;
    match o
    case Next(u) =>
      SettleRemembers(u, s);
      if InterruptOf(Settle(u)) != NO_INTERRUPT {
        TrapRemembers(Settle(u), s, INTERRUPT | InterruptOf(Settle(u)), 0);
      }
    case Rejected(u) => TrapRemembers(u, s, ILLEGAL_INSTRUCTION, raw);
    case Fault(a, k, u) => TrapRemembers(u, s, PageFaultCause(k), a);
    case Undefined =>
  }

  lemma InsideNotDelegated(t: State, i: Instr, word: bv32)
    requires !ExecTrapsToSupervisor(t, i, Exec(t, i, word)) && TrapsInside(t, i)
    ensures !Delegated(t, CauseInside(t, i))
  {
    hide Exec, TrapsInside, CauseInside, Delegated, Settle, InterruptOf, PageFaultCause;
    InsideOnlyNext(t, i, word);
  }

  lemma FinishRemembers(t: State, s: State, i: Instr, word: bv32, raw: bv32)
    requires Remembers(t, s) && SparesSupervisor(t, i) && !ExecTrapsToSupervisor(t, i, Exec(t, i, word))
    ensures var turn := Finish(Exec(t, i, word), raw); turn.Running? ==> Remembers(turn.state, s)
  {
    hide *;
    if TrapsInside(t, i) {
      InsideNotDelegated(t, i, word);
    }
    ExecRemembers(t, s, i, word);
    OutcomeRemembers(t, s, i, Exec(t, i, word), raw);
  }

  lemma StepRemembers(t: State, s: State)
    requires Remembers(t, s) && Spares(t) && !TrapsToSupervisor(t) && Step(t).Running?
    ensures Remembers(Step(t).state, s)
  {
    hide Remembers, SparesSupervisor, ExecTrapsToSupervisor, CauseBit, Bus.Read32, HartOf, FallThrough, TakeTrap, PageFaultCause, Exec, Decode, Expand, Finish;
    match Bus.Read32(t.mem, HartOf(t), t.pc, true)
    case PageFault(a, k, m) =>
      SameRemembers(t, t.(mem := m), s);
      TrapRemembers(t.(mem := m), s, PageFaultCause(k), a);
    case Done(raw, m) =>
      var t1, word := t.(mem := m, nextPc := FallThrough(t.pc, raw)), Expand(raw);
      SameRemembers(t, t1, s);
      if !(word == 0 && t.pc == 0) {
        FinishRemembers(t1, s, Decode(word), word, raw);
      }
  }

  // ----- runs ---------------------------------------------------------------------

  lemma PollRemembers(t: State, s: State, key: Mmio.Option<bv32>)
    requires Remembers(t, s)
    ensures Remembers(Poll(t, key), s)
  {
    hide Remembers, Mmio.Poll;
    SameRemembers(t, Poll(t, key), s);
  }

  /** A turn of a supervisor handler or of what interrupts it: no SRET, no write that disturbs sepc,
      SPIE or SPP, no trap to S-mode. */
  ghost predicate Inside(t: State) {
    Spares(t) && !TrapsToSupervisor(t)
  }

  lemma {:induction false} RunRemembers(s: State, run: seq<State>, keys: seq<Mmio.Option<bv32>>, n: nat)
    requires Runs(run, keys) && n < |run| && Remembers(run[0], s)
    requires forall i :: 0 <= i < n ==> Inside(Poll(run[i], keys[i]))
    ensures Remembers(run[n], s)
    decreases n
  {
    hide Step, Poll, Remembers, Spares, TrapsToSupervisor;
    if n > 0 {
      RunRemembers(s, run, keys, n - 1);
      var t := Poll(run[n - 1], keys[n - 1]);
      assert Step(t) == Running(run[n - 1 + 1]);
      PollRemembers(run[n - 1], s, keys[n - 1]);
      StepRemembers(t, s);
    }
  }

  /** From a trap into S-mode the loop may run any number of turns, in any mode, with machine-level
      traps, interrupts and MRETs nested in any way; as long as no turn executes SRET, disturbs
      sepc, SPIE or SPP, or traps to S-mode, an SRET at the end resumes the interrupted pc, mode
      and SIE. */
  lemma HandlerResumes(s: State, cause: bv32, value: bv32, run: seq<State>, keys: seq<Mmio.Option<bv32>>)
    requires Traps.Legal(s) && Delegated(s, cause)
    requires Runs(run, keys) && run[0] == TakeTrap(s, cause, value)
    requires forall i :: 0 <= i < |keys| ==> Inside(Poll(run[i], keys[i]))
    ensures var u := SupervisorReturn(run[|keys|]);
      u.pc == s.pc && u.nextPc == s.pc && u.mode == s.mode
      && Bit(u.csr(Csr.MSTATUS), 1) == Bit(s.csr(Csr.MSTATUS), 1)
  {
    hide Delegated, TakeTrap, SupervisorReturn, Step, Poll, Inside, Bit, Traps.Spp, Reachable.MstatusOk;
    Traps.SupervisorTrapPushes(s, cause, value);
    Traps.SupervisorTrapLegal(s, cause, value);
    RunRemembers(s, run, keys, |keys|);
    Traps.SupervisorReturnPops(run[|keys|], s);
  }
}
