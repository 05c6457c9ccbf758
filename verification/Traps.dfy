/** Traps and returns: the two interrupt-enable stacks of mstatus, and how they nest. */
module Traps {
  import opened Machine
  import opened Words
  import Csr
  import Reachable

  /** mstatus bits the two levels own: MIE, MPIE, MPP and SIE, SPIE, SPP. */
  const MACHINE_FIELDS: bv32 := 0x0000_1888
  const SUPERVISOR_FIELDS: bv32 := 0x0000_0122
  /** MPIE and MPP. */
  const MACHINE_SAVED: bv32 := 0x0000_1880
  /** SPIE and SPP. */
  const SUPERVISOR_SAVED: bv32 := 0x0000_0120

  function Mpp(mstatus: bv32): Csr.Mode {
    ((mstatus >> 11) & 3) as bv2
  }

  function Spp(mstatus: bv32): Csr.Mode {
    ((mstatus >> 8) & 1) as bv2
  }

  /** Where a trap goes: to S-mode when it comes from U or S and the bit of its number is set in mideleg,
      for an interrupt, or in medeleg; else to M-mode. Bit 31 of a cause marks an interrupt. */
  predicate GoesToSupervisor(s: State, cause: bv32) {
    (s.mode == Csr.USER || s.mode == Csr.SUPERVISOR)
    && Bit(s.csr(if Bit(cause, 31) == 1 then Csr.MIDELEG else Csr.MEDELEG), CauseNumber(cause)) == 1
  }

  function CauseNumber(cause: bv32): bv5 {
    (cause & 0x1F) as bv5
  }

  lemma OneBit(word: bv32, n: bv5)
    ensures word & (1 << n) != 0 <==> Bit(word, n) == 1
  {
  }

  lemma InterruptBit(cause: bv32)
    ensures cause & INTERRUPT != 0 <==> Bit(cause, 31) == 1
  {
  }

  lemma DelegatedExactly(s: State, cause: bv32)
    ensures Delegated(s, cause) <==> GoesToSupervisor(s, cause)
  {
    InterruptBit(cause);
    hide Bit;
    OneBit(s.csr(Csr.MIDELEG), CauseNumber(cause));
    OneBit(s.csr(Csr.MEDELEG), CauseNumber(cause));
  }

  /** The machine-level trap registers of `t` remember where `s` was interrupted. */
  ghost predicate HoldsMachine(t: State, s: State) {
    && t.csr(Csr.MEPC) == s.pc
    && Mpp(t.csr(Csr.MSTATUS)) == s.mode
    && Bit(t.csr(Csr.MSTATUS), 7) == Bit(s.csr(Csr.MSTATUS), 3)
  }

  /** The supervisor-level trap registers of `t` remember where `s` was interrupted. */
  ghost predicate HoldsSupervisor(t: State, s: State) {
    && t.csr(Csr.SEPC) == s.pc
    && Spp(t.csr(Csr.MSTATUS)) == s.mode
    && Bit(t.csr(Csr.MSTATUS), 5) == Bit(s.csr(Csr.MSTATUS), 1)
  }

  /** CSRs of the machine level other than mstatus. */
  predicate IsMachineTrapCsr(a: bv12) {
    a == Csr.MEPC || a == Csr.MCAUSE || a == Csr.MTVAL
  }

  /** A delegated interrupt also writes the software-writable bits of mip. */
  predicate IsSupervisorTrapCsr(a: bv12, cause: bv32) {
    a == Csr.SEPC || a == Csr.SCAUSE || a == Csr.STVAL || (a == Csr.MIP && cause & INTERRUPT != 0)
  }

  // ----- mstatus arithmetic ----------------------------------------------------

  function Pushed(mstatus: bv32, mode: Csr.Mode): bv32 {
    Csr.LegalMstatus(PushMachine(mstatus, mode))
  }

  lemma PushedFields(mstatus: bv32, mode: Csr.Mode)
    requires Reachable.MstatusOk(mstatus) && mode != Csr.RESERVED
    ensures Mpp(Pushed(mstatus, mode)) == mode
    ensures Bit(Pushed(mstatus, mode), 7) == Bit(mstatus, 3) && Bit(Pushed(mstatus, mode), 3) == 0
    ensures Pushed(mstatus, mode) & !MACHINE_FIELDS == mstatus & !MACHINE_FIELDS
  {
  }

  function SupervisorPushed(mstatus: bv32, mode: Csr.Mode): bv32 {
    Csr.Merge(mstatus, PushSupervisor(mstatus & Csr.SSTATUS_MASK, mode), Csr.SSTATUS_MASK)
  }

  lemma SupervisorPushedMode(mstatus: bv32, mode: Csr.Mode)
    requires mode == Csr.USER || mode == Csr.SUPERVISOR
    ensures Spp(SupervisorPushed(mstatus, mode)) == mode
  {
  }

  lemma SupervisorPushedEnable(mstatus: bv32, mode: Csr.Mode)
    ensures Bit(SupervisorPushed(mstatus, mode), 5) == Bit(mstatus, 1)
  {
  }

  lemma SupervisorPushedDisabled(mstatus: bv32, mode: Csr.Mode)
    ensures Bit(SupervisorPushed(mstatus, mode), 1) == 0
  {
  }

  lemma SupervisorPushedRest(mstatus: bv32, mode: Csr.Mode)
    ensures SupervisorPushed(mstatus, mode) & !SUPERVISOR_FIELDS == mstatus & !SUPERVISOR_FIELDS
  {
  }

  lemma SupervisorPushedFields(mstatus: bv32, mode: Csr.Mode)
    requires mode == Csr.USER || mode == Csr.SUPERVISOR
    ensures Spp(SupervisorPushed(mstatus, mode)) == mode
    ensures Bit(SupervisorPushed(mstatus, mode), 5) == Bit(mstatus, 1) && Bit(SupervisorPushed(mstatus, mode), 1) == 0
    ensures SupervisorPushed(mstatus, mode) & !SUPERVISOR_FIELDS == mstatus & !SUPERVISOR_FIELDS
  {
    hide SupervisorPushed, Spp, Bit;
    SupervisorPushedMode(mstatus, mode);
    SupervisorPushedEnable(mstatus, mode);
    SupervisorPushedDisabled(mstatus, mode);
    SupervisorPushedRest(mstatus, mode);
  }

  function Popped(mstatus: bv32): bv32 {
    Csr.LegalMstatus(PopMachine(mstatus))
  }

  lemma PoppedFields(mstatus: bv32)
    requires Reachable.MstatusOk(mstatus)
    ensures Bit(Popped(mstatus), 3) == Bit(mstatus, 7)
    ensures Popped(mstatus) & !MACHINE_FIELDS == mstatus & !MACHINE_FIELDS
  {
  }

  function SupervisorPopped(mstatus: bv32): bv32 {
    Csr.LegalMstatus(PopSupervisor(mstatus))
  }

  lemma SupervisorPoppedFields(mstatus: bv32)
    requires Reachable.MstatusOk(mstatus)
    ensures Bit(SupervisorPopped(mstatus), 1) == Bit(mstatus, 5)
    ensures SupervisorPopped(mstatus) & !SUPERVISOR_FIELDS == mstatus & !SUPERVISOR_FIELDS
  {
  }

  // ----- one trap, one return ---------------------------------------------------

  /** A trap into M-mode: what it writes and what it leaves alone. */
  lemma MachineTrapWrites(s: State, cause: bv32, value: bv32, a: bv12)
    ensures var f := MachineTrapCsrs(s, cause, value);
      && f(Csr.MEPC) == s.pc && f(Csr.MCAUSE) == cause && f(Csr.MTVAL) == value
      && f(Csr.MSTATUS) == Pushed(s.csr(Csr.MSTATUS), s.mode)
      && (!IsMachineTrapCsr(a) && a != Csr.MSTATUS ==> f(a) == s.csr(a))
  {
    hide PushMachine, Csr.LegalMstatus, Csr.Merge;
  }

  lemma SupervisorTrapWrites(s: State, cause: bv32, value: bv32, a: bv12)
    ensures var f := SupervisorTrapCsrs(s, cause, value);
      && f(Csr.SEPC) == s.pc && f(Csr.SCAUSE) == cause && f(Csr.STVAL) == value
      && f(Csr.MSTATUS) == SupervisorPushed(s.csr(Csr.MSTATUS), s.mode)
      && (!IsSupervisorTrapCsr(a, cause) && a != Csr.MSTATUS ==> f(a) == s.csr(a))
  {
    hide PushSupervisor, Csr.LegalMstatus, Csr.Merge, CauseBit;
  }

  lemma ReturnWrites(f: Csr.File, mstatus: bv32, a: bv12)
    ensures Csr.Write(f, Csr.MSTATUS, mstatus)(a) == if a == Csr.MSTATUS then Csr.LegalMstatus(mstatus) else f(a)
  {
    hide Csr.LegalMstatus, Csr.Merge;
  }

  /** A trap that is not delegated pushes the machine level and leaves the supervisor level. */
  lemma MachineTrapPushes(s: State, cause: bv32, value: bv32)
    requires !Delegated(s, cause)
    requires Reachable.MstatusOk(s.csr(Csr.MSTATUS)) && s.mode != Csr.RESERVED
    ensures var t := TakeTrap(s, cause, value);
      && HoldsMachine(t, s) && t.mode == Csr.MACHINE && Bit(t.csr(Csr.MSTATUS), 3) == 0
      && t.csr(Csr.MCAUSE) == cause && t.csr(Csr.MTVAL) == value
      && t.csr(Csr.MSTATUS) & !MACHINE_FIELDS == s.csr(Csr.MSTATUS) & !MACHINE_FIELDS
      && t.pc == s.csr(Csr.MTVEC) & !3 && t.nextPc == t.pc && t.regs == s.regs && t.mem == s.mem && !t.reserved
      && (forall a: bv12 :: !IsMachineTrapCsr(a) && a != Csr.MSTATUS ==> t.csr(a) == s.csr(a))
  {
    var mstatus, mode := s.csr(Csr.MSTATUS), s.mode;
    PushedFields(mstatus, mode);
    forall a: bv12
      ensures !IsMachineTrapCsr(a) && a != Csr.MSTATUS ==> MachineTrapCsrs(s, cause, value)(a) == s.csr(a)
    {
      hide *;
      MachineTrapWrites(s, cause, value, a);
    }
    MachineTrapWrites(s, cause, value, Csr.MTVEC);
    hide Delegated, MachineTrapCsrs, SupervisorTrapCsrs, Pushed, Bit, Mpp, Reachable.MstatusOk;
  }

  lemma DelegatedMode(s: State, cause: bv32)
    requires Delegated(s, cause)
    ensures s.mode == Csr.USER || s.mode == Csr.SUPERVISOR
  {
    hide CauseBit;
  }

  /** A delegated trap pushes the supervisor level and leaves the machine level. */
  lemma SupervisorTrapPushes(s: State, cause: bv32, value: bv32)
    requires Delegated(s, cause)
    ensures var t := TakeTrap(s, cause, value);
      && HoldsSupervisor(t, s) && t.mode == Csr.SUPERVISOR && Bit(t.csr(Csr.MSTATUS), 1) == 0
      && t.csr(Csr.SCAUSE) == cause && t.csr(Csr.STVAL) == value
      && t.csr(Csr.MSTATUS) & !SUPERVISOR_FIELDS == s.csr(Csr.MSTATUS) & !SUPERVISOR_FIELDS
      && t.pc == s.csr(Csr.STVEC) & !3 && t.nextPc == t.pc && t.regs == s.regs && t.mem == s.mem && !t.reserved
      && (forall a: bv12 :: !IsSupervisorTrapCsr(a, cause) && a != Csr.MSTATUS ==> t.csr(a) == s.csr(a))
  {
    hide Delegated, MachineTrapCsrs, SupervisorTrapCsrs, SupervisorPushed, Bit, Spp;
    DelegatedMode(s, cause);
    SupervisorPushedFields(s.csr(Csr.MSTATUS), s.mode);
    forall a: bv12
      ensures !IsSupervisorTrapCsr(a, cause) && a != Csr.MSTATUS ==> SupervisorTrapCsrs(s, cause, value)(a) == s.csr(a)
    {
      hide *;
      SupervisorTrapWrites(s, cause, value, a);
    }
    SupervisorTrapWrites(s, cause, value, Csr.STVEC);
  }

  /** MRET resumes what the machine level remembers. */
  lemma MachineReturnPops(t: State, s: State)
    requires HoldsMachine(t, s) && Reachable.MstatusOk(t.csr(Csr.MSTATUS))
    ensures var u := MachineReturn(t);
      && u.pc == s.pc && u.nextPc == s.pc && u.mode == s.mode
      && Bit(u.csr(Csr.MSTATUS), 3) == Bit(s.csr(Csr.MSTATUS), 3)
      && u.csr(Csr.MSTATUS) & !MACHINE_FIELDS == t.csr(Csr.MSTATUS) & !MACHINE_FIELDS
      && u.regs == t.regs && u.mem == t.mem && (forall a: bv12 :: a != Csr.MSTATUS ==> u.csr(a) == t.csr(a))
  {
    PoppedFields(t.csr(Csr.MSTATUS));
    forall a: bv12
      ensures MachineReturn(t).csr(a) == if a == Csr.MSTATUS then Popped(t.csr(Csr.MSTATUS)) else t.csr(a)
    {
      hide Csr.Write, PopMachine, Csr.LegalMstatus;
      ReturnWrites(t.csr, PopMachine(t.csr(Csr.MSTATUS)), a);
    }
    hide Csr.Write, Popped, PopMachine, Bit, Reachable.MstatusOk;
  }

  /** SRET resumes what the supervisor level remembers. */
  lemma SupervisorReturnPops(t: State, s: State)
    requires HoldsSupervisor(t, s) && Reachable.MstatusOk(t.csr(Csr.MSTATUS))
    ensures var u := SupervisorReturn(t);
      && u.pc == s.pc && u.nextPc == s.pc && u.mode == s.mode
      && Bit(u.csr(Csr.MSTATUS), 1) == Bit(s.csr(Csr.MSTATUS), 1)
      && u.csr(Csr.MSTATUS) & !SUPERVISOR_FIELDS == t.csr(Csr.MSTATUS) & !SUPERVISOR_FIELDS
      && u.regs == t.regs && u.mem == t.mem && (forall a: bv12 :: a != Csr.MSTATUS ==> u.csr(a) == t.csr(a))
  {
    SupervisorPoppedFields(t.csr(Csr.MSTATUS));
    forall a: bv12
      ensures SupervisorReturn(t).csr(a) == if a == Csr.MSTATUS then SupervisorPopped(t.csr(Csr.MSTATUS)) else t.csr(a)
    {
      hide Csr.Write, PopSupervisor, Csr.LegalMstatus;
      ReturnWrites(t.csr, PopSupervisor(t.csr(Csr.MSTATUS)), a);
    }
    hide Csr.Write, SupervisorPopped, PopSupervisor, Bit, Reachable.MstatusOk;
  }

  // ----- nesting -------------------------------------------------------------------

  /** What can happen while a supervisor handler is pending: a trap into M-mode, an MRET, or
      any work that keeps the supervisor-level trap registers. */
  ghost predicate Excursion(t: State, u: State) {
    || (exists cause: bv32, value: bv32 :: !Delegated(t, cause) && u == TakeTrap(t, cause, value))
    || u == MachineReturn(t)
    || (Reachable.MstatusOk(u.csr(Csr.MSTATUS)) && u.mode != Csr.RESERVED && KeepsSupervisor(t, u))
  }

  ghost predicate KeepsSupervisor(t: State, u: State) {
    u.csr(Csr.SEPC) == t.csr(Csr.SEPC) && u.csr(Csr.MSTATUS) & SUPERVISOR_SAVED == t.csr(Csr.MSTATUS) & SUPERVISOR_SAVED
  }

  ghost predicate Legal(t: State) {
    Reachable.MstatusOk(t.csr(Csr.MSTATUS)) && t.mode != Csr.RESERVED
  }

  lemma FieldsOfMask(x: bv32, y: bv32)
    requires x & SUPERVISOR_SAVED == y & SUPERVISOR_SAVED
    ensures Spp(x) == Spp(y) && Bit(x, 5) == Bit(y, 5)
  {
  }

  lemma MaskOfOthers(x: bv32, y: bv32)
    requires x & !MACHINE_FIELDS == y & !MACHINE_FIELDS
    ensures x & SUPERVISOR_SAVED == y & SUPERVISOR_SAVED
  {
  }

  lemma HoldsTransfers(t: State, u: State, s: State)
    requires HoldsSupervisor(t, s) && KeepsSupervisor(t, u)
    ensures HoldsSupervisor(u, s)
  {
    FieldsOfMask(t.csr(Csr.MSTATUS), u.csr(Csr.MSTATUS));
    hide Bit, Spp;
  }

  lemma MachineTrapIsExcursion(t: State, cause: bv32, value: bv32)
    requires Legal(t) && !Delegated(t, cause)
    ensures KeepsSupervisor(t, TakeTrap(t, cause, value)) && Legal(TakeTrap(t, cause, value))
  {
    MachineTrapPushes(t, cause, value);
    var u := TakeTrap(t, cause, value);
    MaskOfOthers(u.csr(Csr.MSTATUS), t.csr(Csr.MSTATUS));
    PushedOk(t.csr(Csr.MSTATUS), t.mode);
    MachineTrapWrites(t, cause, value, Csr.SEPC);
    hide Delegated, SupervisorTrapCsrs, MachineTrapCsrs, Pushed, Reachable.MstatusOk;
  }

  lemma PushedOk(mstatus: bv32, mode: Csr.Mode)
    ensures Reachable.MstatusOk(Pushed(mstatus, mode)) && Reachable.MstatusOk(Popped(mstatus))
  {
    hide PushMachine, PopMachine, Csr.LegalMstatus, Reachable.MstatusOk;
    Reachable.LegalMstatusOk(PushMachine(mstatus, mode));
    Reachable.LegalMstatusOk(PopMachine(mstatus));
  }

  lemma MachineReturnIsExcursion(t: State)
    requires Legal(t)
    ensures KeepsSupervisor(t, MachineReturn(t)) && Legal(MachineReturn(t))
  {
    PoppedFields(t.csr(Csr.MSTATUS));
    MaskOfOthers(Popped(t.csr(Csr.MSTATUS)), t.csr(Csr.MSTATUS));
    PushedOk(t.csr(Csr.MSTATUS), t.mode);
    Reachable.PreviousMode(t.csr(Csr.MSTATUS));
    ReturnWrites(t.csr, PopMachine(t.csr(Csr.MSTATUS)), Csr.MSTATUS);
    ReturnWrites(t.csr, PopMachine(t.csr(Csr.MSTATUS)), Csr.SEPC);
    hide Csr.Write, PopMachine, Csr.LegalMstatus, Reachable.MstatusOk;
  }

  lemma ExcursionKeeps(t: State, u: State, s: State)
    requires Legal(t) && HoldsSupervisor(t, s) && Excursion(t, u)
    ensures Legal(u) && HoldsSupervisor(u, s)
  {
    hide Delegated, TakeTrap, MachineReturn, HoldsSupervisor, KeepsSupervisor, Reachable.MstatusOk;
    if cause: bv32, value: bv32 :| !Delegated(t, cause) && u == TakeTrap(t, cause, value) {
      MachineTrapIsExcursion(t, cause, value);
    } else if u == MachineReturn(t) {
      MachineReturnIsExcursion(t);
    }
    HoldsTransfers(t, u, s);
  }

  lemma {:induction false} ExcursionsKeep(path: seq<State>, s: State, i: nat)
    requires i < |path| && Legal(path[0]) && HoldsSupervisor(path[0], s)
    requires forall j :: 0 <= j < |path| - 1 ==> Excursion(path[j], path[j + 1])
    ensures Legal(path[i]) && HoldsSupervisor(path[i], s)
  {
    hide Legal, HoldsSupervisor, Excursion;
    if i > 0 {
      ExcursionsKeep(path, s, i - 1);
      assert Excursion(path[i - 1], path[i - 1 + 1]);
      ExcursionKeeps(path[i - 1], path[i], s);
    }
  }

  lemma SupervisorTrapLegal(s: State, cause: bv32, value: bv32)
    requires Legal(s) && Delegated(s, cause)
    ensures Legal(TakeTrap(s, cause, value))
  {
    SupervisorTrapWrites(s, cause, value, Csr.SEPC);
    hide Delegated, MachineTrapCsrs, SupervisorTrapCsrs, PushSupervisor, Csr.Merge, Reachable.MstatusOk;
    var mstatus := s.csr(Csr.MSTATUS);
    Reachable.MergedMstatusOk(mstatus, PushSupervisor(mstatus & Csr.SSTATUS_MASK, s.mode));
  }

  /** Nesting: after a trap into S-mode, any number of traps into M-mode and returns from
      it, in any order and with any work between that keeps sepc, SPIE and SPP, SRET
      resumes the interrupted code in its mode with its SIE. */
  lemma SupervisorTrapNests(s: State, cause: bv32, value: bv32, path: seq<State>)
    requires Legal(s) && Delegated(s, cause)
    requires |path| > 0 && path[0] == TakeTrap(s, cause, value)
    requires forall j :: 0 <= j < |path| - 1 ==> Excursion(path[j], path[j + 1])
    ensures var u := SupervisorReturn(path[|path| - 1]);
      u.pc == s.pc && u.nextPc == s.pc && u.mode == s.mode
      && Bit(u.csr(Csr.MSTATUS), 1) == Bit(s.csr(Csr.MSTATUS), 1)
  {
    SupervisorTrapPushes(s, cause, value);
    SupervisorTrapLegal(s, cause, value);
    hide Delegated, TakeTrap, SupervisorReturn, HoldsSupervisor, Excursion, Reachable.MstatusOk, Bit;
    ExcursionsKeep(path, s, |path| - 1);
    SupervisorReturnPops(path[|path| - 1], s);
  }

  lemma MachineFieldsOfMask(x: bv32, y: bv32)
    requires x & MACHINE_SAVED == y & MACHINE_SAVED
    ensures Mpp(x) == Mpp(y) && Bit(x, 7) == Bit(y, 7)
  {
  }

  /** And each trap into M-mode among them, handled with mepc, MPIE and MPP kept, resumes at
      its own interrupted pc, mode and MIE, with every other bit of mstatus as its handler left it. */
  lemma MachineTrapReturns(s: State, cause: bv32, value: bv32, t: State)
    requires Legal(s) && !Delegated(s, cause) && Reachable.MstatusOk(t.csr(Csr.MSTATUS))
    requires var taken := TakeTrap(s, cause, value);
      t.csr(Csr.MEPC) == taken.csr(Csr.MEPC) && t.csr(Csr.MSTATUS) & MACHINE_SAVED == taken.csr(Csr.MSTATUS) & MACHINE_SAVED
    ensures var u := MachineReturn(t);
      u.pc == s.pc && u.nextPc == s.pc && u.mode == s.mode
      && Bit(u.csr(Csr.MSTATUS), 3) == Bit(s.csr(Csr.MSTATUS), 3)
      && u.csr(Csr.MSTATUS) & !MACHINE_FIELDS == t.csr(Csr.MSTATUS) & !MACHINE_FIELDS
      && TakeTrap(s, cause, value).csr(Csr.MSTATUS) & !MACHINE_FIELDS == s.csr(Csr.MSTATUS) & !MACHINE_FIELDS
  {
    MachineTrapPushes(s, cause, value);
    MachineFieldsOfMask(t.csr(Csr.MSTATUS), TakeTrap(s, cause, value).csr(Csr.MSTATUS));
    hide Delegated, TakeTrap, MachineReturn, Reachable.MstatusOk, Bit, Mpp;
    MachineReturnPops(t, s);
  }

  /** A trap never lowers privilege. */
  lemma TrapNeverLowers(s: State, cause: bv32, value: bv32)
    ensures TakeTrap(s, cause, value).mode >= s.mode && TakeTrap(s, cause, value).mode >= Csr.SUPERVISOR
  {
    hide SupervisorTrapCsrs, MachineTrapCsrs, CauseBit;
  }
}
