/** Interrupt discipline: which interrupt is chosen, how that compares with the manual, and
    how long a machine-level handler is left alone. */
module Interrupts {
  import opened Effects
  import opened ExecFacts
  import opened Isa
  import opened Machine
  import opened Words
  import Bus
  import BusFacts
  import Csr
  import Mmio
  import Reachable
  import Traps

  // ----- the choice ----------------------------------------------------------

  predicate IsCause(cause: bv32) {
    cause == 11 || cause == 3 || cause == 7 || cause == 9 || cause == 1 || cause == 5
  }

  /** Position in the order MEI, MSI, MTI, SEI, SSI, STI of section 3.1.9 of the RISC-V
      Instruction Set Manual, Volume II (20211203). */
  function Rank(cause: bv32): nat {
    if cause == 11 then 0 else if cause == 3 then 1 else if cause == 7 then 2
    else if cause == 9 then 3 else if cause == 1 then 4 else 5
  }

  predicate IsMachineCause(cause: bv32) {
    cause == 11 || cause == 3 || cause == 7
  }

  predicate Meets(pending: bv32, mask: bv32) {
    pending & mask != 0
  }

  predicate IsPending(pending: bv32, cause: bv32) {
    Meets(pending, CauseBit(cause))
  }

  /** Pending, and enabled at the current mode by the enable bit of its own level. */
  predicate CanTake(mode: Csr.Mode, mstatus: bv32, pending: bv32, cause: bv32) {
    IsCause(cause) && IsPending(pending, cause)
    && if IsMachineCause(cause) then MachineEnabled(mode, mstatus) else SupervisorEnabled(mode, mstatus)
  }

  lemma CauseBits()
    ensures CauseBit(11) == 0x800 && CauseBit(3) == 0x008 && CauseBit(7) == 0x080
    ensures CauseBit(9) == 0x200 && CauseBit(1) == 0x002 && CauseBit(5) == 0x020
  {
  }

  lemma PendingBit(pending: bv32, cause: bv32, mask: bv32)
    requires CauseBit(cause) == mask
    ensures IsPending(pending, cause) <==> pending & mask != 0
  {
    hide CauseBit, Meets;
    assert IsPending(pending, cause) == Meets(pending, mask);
    MeetsMeans(pending, mask);
  }

  lemma MeetsMeans(pending: bv32, mask: bv32)
    ensures Meets(pending, mask) <==> pending & mask != 0
  {
  }

  lemma PendingBits(pending: bv32)
    ensures IsPending(pending, 11) <==> pending & 0x800 != 0
    ensures IsPending(pending, 3) <==> pending & 0x008 != 0
    ensures IsPending(pending, 7) <==> pending & 0x080 != 0
    ensures IsPending(pending, 9) <==> pending & 0x200 != 0
    ensures IsPending(pending, 1) <==> pending & 0x002 != 0
    ensures IsPending(pending, 5) <==> pending & 0x020 != 0
  {
    hide CauseBit, IsPending;
    CauseBits();
    PendingBit(pending, 11, 0x800);
    PendingBit(pending, 3, 0x008);
    PendingBit(pending, 7, 0x080);
    PendingBit(pending, 9, 0x200);
    PendingBit(pending, 1, 0x002);
    PendingBit(pending, 5, 0x020);
  }

  /** The choice is the first in the order among the interrupts that can be taken, and there is
      none exactly when nothing can. */
  lemma HighestIsChosen(mode: Csr.Mode, mstatus: bv32, pending: bv32, cause: bv32)
    ensures var r := SelectInterrupt(mode, mstatus, pending);
      (r == NO_INTERRUPT || CanTake(mode, mstatus, pending, r))
      && (CanTake(mode, mstatus, pending, cause) ==> r != NO_INTERRUPT && Rank(r) <= Rank(cause))
  {
    PendingBits(pending);
    hide IsPending, MachineEnabled, SupervisorEnabled;
  }

  // ----- the manual's choice ----------------------------------------------------

  /** Section 3.1.9: an interrupt whose mideleg bit is clear traps to M-mode, else to S-mode,
      when that mode's interrupts are enabled. */
  predicate ManualCanTake(mode: Csr.Mode, mstatus: bv32, mideleg: bv32, pending: bv32, cause: bv32) {
    IsCause(cause) && IsPending(pending, cause)
    && if IsPending(mideleg, cause) then SupervisorEnabled(mode, mstatus) else MachineEnabled(mode, mstatus)
  }

  /** Interrupts that trap to M-mode come before those that trap to S-mode. */
  function ManualRank(mideleg: bv32, cause: bv32): nat {
    if IsPending(mideleg, cause) then 6 + Rank(cause) else Rank(cause)
  }

  ghost predicate ManualChoice(mode: Csr.Mode, mstatus: bv32, mideleg: bv32, pending: bv32, r: bv32) {
    if r == NO_INTERRUPT then
      forall cause: bv32 :: !ManualCanTake(mode, mstatus, mideleg, pending, cause)
    else
      ManualCanTake(mode, mstatus, mideleg, pending, r)
      && forall cause: bv32 :: ManualCanTake(mode, mstatus, mideleg, pending, cause) ==>
           ManualRank(mideleg, r) <= ManualRank(mideleg, cause)
  }

  /** All supervisor interrupts delegated, no machine interrupt delegated. */
  predicate StandardDelegation(mideleg: bv32) {
    mideleg & 0xAAA == 0x222
  }

  lemma StandardBits(mideleg: bv32)
    requires StandardDelegation(mideleg)
    ensures !IsPending(mideleg, 11) && !IsPending(mideleg, 3) && !IsPending(mideleg, 7)
    ensures IsPending(mideleg, 9) && IsPending(mideleg, 1) && IsPending(mideleg, 5)
  {
    hide IsPending;
    PendingBits(mideleg);
  }

  lemma StandardAgrees(mode: Csr.Mode, mstatus: bv32, mideleg: bv32, pending: bv32, cause: bv32)
    requires StandardDelegation(mideleg) && IsCause(cause)
    ensures ManualCanTake(mode, mstatus, mideleg, pending, cause) <==> CanTake(mode, mstatus, pending, cause)
    ensures ManualRank(mideleg, cause) == if IsMachineCause(cause) then Rank(cause) else 6 + Rank(cause)
  {
    StandardBits(mideleg);
    hide IsPending, MachineEnabled, SupervisorEnabled, StandardDelegation;
  }

  lemma StandardChoice(mode: Csr.Mode, mstatus: bv32, mideleg: bv32, pending: bv32)
    requires StandardDelegation(mideleg)
    ensures ManualChoice(mode, mstatus, mideleg, pending, SelectInterrupt(mode, mstatus, pending))
  {
    var r := SelectInterrupt(mode, mstatus, pending);
    assert !ManualCanTake(mode, mstatus, mideleg, pending, NO_INTERRUPT);
    forall cause: bv32 | ManualCanTake(mode, mstatus, mideleg, pending, cause)
      ensures r != NO_INTERRUPT && ManualRank(mideleg, r) <= ManualRank(mideleg, cause)
    {
      hide IsPending, MachineEnabled, SupervisorEnabled, StandardDelegation, SelectInterrupt;
      StandardAgrees(mode, mstatus, mideleg, pending, cause);
      HighestIsChosen(mode, mstatus, pending, cause);
      StandardAgrees(mode, mstatus, mideleg, pending, r);
    }
    hide IsPending, MachineEnabled, SupervisorEnabled, StandardDelegation, SelectInterrupt, ManualRank;
    HighestIsChosen(mode, mstatus, pending, 0);
    if r != NO_INTERRUPT {
      StandardAgrees(mode, mstatus, mideleg, pending, r);
    }
  }

  lemma SomeBitDiffers(mideleg: bv32) returns (cause: bv32)
    requires !StandardDelegation(mideleg)
    ensures IsCause(cause) && (IsPending(mideleg, cause) <==> IsMachineCause(cause))
  {
    cause := if mideleg & 0x800 != 0 then 11 else if mideleg & 0x008 != 0 then 3 else if mideleg & 0x080 != 0 then 7
      else if mideleg & 0x200 == 0 then 9 else if mideleg & 0x002 == 0 then 1 else 5;
    PendingBits(mideleg);
    hide IsPending;
  }

  /** In M-mode with MIE set, the one pending interrupt `cause` is treated by its own number,
      not by mideleg. */
  lemma DelegationIgnored(mideleg: bv32, cause: bv32)
    requires IsCause(cause) && (IsPending(mideleg, cause) <==> IsMachineCause(cause))
    ensures !ManualChoice(Csr.MACHINE, 0x8, mideleg, CauseBit(cause), SelectInterrupt(Csr.MACHINE, 0x8, CauseBit(cause)))
  {
    OneBit(cause);
    CauseBits();
    hide CauseBit;
    if IsMachineCause(cause) {
      assert SelectInterrupt(Csr.MACHINE, 0x8, CauseBit(cause)) == cause;
      assert !ManualCanTake(Csr.MACHINE, 0x8, mideleg, CauseBit(cause), cause);
    } else {
      assert SelectInterrupt(Csr.MACHINE, 0x8, CauseBit(cause)) == NO_INTERRUPT;
      assert ManualCanTake(Csr.MACHINE, 0x8, mideleg, CauseBit(cause), cause);
    }
  }

  lemma OneBit(cause: bv32)
    requires IsCause(cause)
    ensures IsPending(CauseBit(cause), cause)
  {
    hide CauseBit;
    CauseBits();
  }

  /** The choice is the manual's in every mode, mstatus and pending set if and only if mideleg
      delegates exactly the supervisor interrupts. */
  lemma AgreesWithManualExactly(mideleg: bv32)
    ensures StandardDelegation(mideleg) <==>
      forall mode: Csr.Mode, mstatus: bv32, pending: bv32 ::
        ManualChoice(mode, mstatus, mideleg, pending, SelectInterrupt(mode, mstatus, pending))
  {
    hide StandardDelegation, ManualChoice, SelectInterrupt;
    if StandardDelegation(mideleg) {
      forall mode: Csr.Mode, mstatus: bv32, pending: bv32
        ensures ManualChoice(mode, mstatus, mideleg, pending, SelectInterrupt(mode, mstatus, pending))
      {
        StandardChoice(mode, mstatus, mideleg, pending);
      }
    } else {
      var cause := SomeBitDiffers(mideleg);
      DelegationIgnored(mideleg, cause);
    }
  }

  // ----- a machine-level handler is left alone -------------------------------------

  /** M-mode with MIE clear. */
  predicate Masked(s: State) {
    s.mode == Csr.MACHINE && Bit(s.csr(Csr.MSTATUS), 3) == 0
  }

  /** What the turn from `s` executes, and the state execution leaves, when it gets that far. */
  function Executing(s: State): Mmio.Option<(State, Instr, bv32)> {
    match Bus.Read32(s.mem, HartOf(s), s.pc, true)
    case PageFault(_, _, _) => Mmio.None
    case Done(raw, m) =>
      var word := Expand(raw);
      if word == 0 && s.pc == 0 then Mmio.None
      else Mmio.Some((s.(mem := m, nextPc := FallThrough(s.pc, raw)), Decode(word), word))
  }

  /** The turn from `s` ends in an interrupt. */
  predicate TakesInterrupt(s: State) {
    match Executing(s)
    case None => false
    case Some((s1, i, word)) =>
      match Exec(s1, i, word)
      case Next(t) => InterruptOf(Settle(t)) != NO_INTERRUPT
      case _ => false
  }

  /** Executed in `s`, in M-mode with MIE clear, the instruction sets MIE or leaves M-mode: SRET;
      MRET, unless it returns to M-mode with MPIE clear; a CSR instruction that writes mstatus
      with the bit of MIE set. */
  predicate SetsOrLeaves(s: State, i: Instr) {
    match i
    case Sret => true
    case Mret => Traps.Mpp(s.csr(Csr.MSTATUS)) != Csr.MACHINE || Bit(s.csr(Csr.MSTATUS), 7) == 1
    case CsrAccess(op, _, rs1, a) =>
      a == Csr.MSTATUS && WritesCsr(op, rs1) && Bit(CsrResult(op, s.csr(Csr.MSTATUS), CsrOperand(s, op, rs1)), 3) == 1
    case _ => false
  }

  predicate Unmasks(s: State) {
    match Executing(s)
    case None => false
    case Some((s1, i, _)) => SetsOrLeaves(s1, i)
  }

  lemma MachineEnable(mstatus: bv32)
    ensures Bit(mstatus, 3) == 0 <==> mstatus & 0x8 == 0
  {
  }

  lemma MaskedTakesNothing(s: State)
    requires Masked(s)
    ensures InterruptOf(s) == NO_INTERRUPT
  {
    hide Bit;
    MachineEnable(s.csr(Csr.MSTATUS));
  }

  lemma TrapMasks(s: State, cause: bv32, value: bv32)
    requires Traps.Legal(s) && s.mode == Csr.MACHINE
    ensures Masked(TakeTrap(s, cause, value)) && Traps.Legal(TakeTrap(s, cause, value))
  {
    assert !Delegated(s, cause);
    hide Delegated, TakeTrap, Bit, Traps.Mpp, Reachable.MstatusOk;
    Traps.MachineTrapPushes(s, cause, value);
    Traps.MachineTrapIsExcursion(s, cause, value);
  }

  lemma MergeKeepsMachineEnable(current: bv32, value: bv32)
    ensures Bit(Csr.Merge(current, value, Csr.SSTATUS_MASK), 3) == Bit(current, 3)
  {
  }

  lemma OtherCsrKeepsMachineEnable(f: Csr.File, a: bv12, value: bv32)
    requires a != Csr.MSTATUS
    ensures Bit(Csr.Write(f, a, value)(Csr.MSTATUS), 3) == Bit(f(Csr.MSTATUS), 3)
  {
    hide Csr.Merge, Bit, Csr.IsReadOnly;
    MergeKeepsMachineEnable(f(Csr.MSTATUS), value);
  }

  /** Masked, and legal as every reachable state is. */
  ghost predicate Quiet(s: State) {
    Masked(s) && Traps.Legal(s)
  }

  /** What an instruction does to a state with machine interrupts masked. */
  ghost predicate Leaves(s: State, i: Instr, t: State) {
    if SetsOrLeaves(s, i) then !Masked(t) else Quiet(t)
  }

  lemma QuietFrom(s: State, t: State)
    requires Quiet(s) && t.mode == s.mode && t.csr(Csr.MSTATUS) == s.csr(Csr.MSTATUS)
    ensures Quiet(t)
  {
    hide Bit, Reachable.MstatusOk;
  }

  lemma TrapQuiet(s: State, cause: bv32, value: bv32)
    requires Quiet(s)
    ensures Quiet(TakeTrap(s, cause, value))
  {
    hide Bit, Reachable.MstatusOk, TakeTrap;
    TrapMasks(s, cause, value);
  }

  lemma PutCsrQuiet(s: State, a: bv12, value: bv32)
    requires Quiet(s) && a != Csr.MSTATUS
    ensures Quiet(PutCsr(s, a, value))
  {
    hide Csr.Write, Bit, Reachable.MstatusOk;
    OtherCsrKeepsMachineEnable(s.csr, a, value);
    Reachable.WriteMstatusOk(s.csr, a, value);
  }

  lemma OneBitWord(word: bv32, n: bv5)
    ensures Bit(word, n) == 0 || Bit(word, n) == 1
  {
  }

  lemma LegalKeepsMachineEnable(value: bv32)
    ensures Bit(Csr.LegalMstatus(value), 3) == Bit(value, 3)
  {
  }

  lemma WriteOfMstatus(f: Csr.File, value: bv32)
    ensures Csr.Write(f, Csr.MSTATUS, value)(Csr.MSTATUS) == Csr.LegalMstatus(value)
  {
    hide Csr.LegalMstatus, Csr.Merge;
  }

  /** A write to mstatus leaves MIE clear exactly when the written value has it clear. */
  lemma PutMstatusQuiet(s: State, value: bv32)
    requires Quiet(s)
    ensures if Bit(value, 3) == 1 then !Masked(PutCsr(s, Csr.MSTATUS, value)) else Quiet(PutCsr(s, Csr.MSTATUS, value))
  {
    hide Csr.Write, Bit, Reachable.MstatusOk, Csr.LegalMstatus;
    OneBitWord(value, 3);
    WriteOfMstatus(s.csr, value);
    LegalKeepsMachineEnable(value);
    Reachable.WriteMstatusOk(s.csr, Csr.MSTATUS, value);
  }

  lemma MachineAccesses(a: bv12, mtime: bv64, f: Csr.File)
    requires a == Csr.MSTATUS
    ensures Csr.CanAccess(a, Csr.MACHINE, true) && Csr.CanAccess(a, Csr.MACHINE, false) && Csr.Read(f, mtime, a) == f(a)
  {
  }

  lemma WrittenQuiet(s: State, rd: bv5, value: bv32)
    ensures Quiet(WriteRegister(s, rd, value)) <==> Quiet(s)
    ensures Masked(WriteRegister(s, rd, value)) <==> Masked(s)
  {
    hide Bit, Reachable.MstatusOk, SetRegister;
  }

  lemma MstatusAccessQuiet(s: State, op: COp, rd: bv5, rs1: bv5, word: bv32)
    requires Quiet(s)
    ensures Leaves(s, CsrAccess(op, rd, rs1, Csr.MSTATUS), After(ExecCsr(s, op, rd, rs1, Csr.MSTATUS, word), s))
  {
    hide Quiet, Masked, Csr.CanAccess, Csr.Read, TakeTrap, CsrOperand, CsrResult, WritesCsr, WriteRegister, PutCsr, Bit;
    QuietMeans(s);
    var current := s.csr(Csr.MSTATUS);
    var value := CsrResult(op, current, CsrOperand(s, op, rs1));
    MachineAccesses(Csr.MSTATUS, s.mem.dev.mtime, s.csr);
    PutMstatusQuiet(s, value);
    WrittenQuiet(s, rd, current);
    WrittenQuiet(PutCsr(s, Csr.MSTATUS, value), rd, current);
  }

  lemma OtherAccessQuiet(s: State, op: COp, rd: bv5, rs1: bv5, a: bv12, word: bv32)
    requires Quiet(s) && a != Csr.MSTATUS
    ensures Quiet(After(ExecCsr(s, op, rd, rs1, a, word), s))
  {
    hide Quiet, Csr.CanAccess, Csr.Read, TakeTrap, CsrOperand, CsrResult, WritesCsr, WriteRegister, PutCsr;
    TrapQuiet(s, ILLEGAL_INSTRUCTION, word);
    var current := Csr.Read(s.csr, s.mem.dev.mtime, a);
    var value := CsrResult(op, current, CsrOperand(s, op, rs1));
    PutCsrQuiet(s, a, value);
    WrittenQuiet(s, rd, current);
    WrittenQuiet(PutCsr(s, a, value), rd, current);
  }

  lemma CsrQuiet(s: State, op: COp, rd: bv5, rs1: bv5, a: bv12, word: bv32)
    requires Quiet(s)
    ensures Leaves(s, CsrAccess(op, rd, rs1, a), After(ExecCsr(s, op, rd, rs1, a, word), s))
  {
    hide Quiet, Masked, ExecCsr, After, CsrResult, CsrOperand, WritesCsr, Bit;
    if a == Csr.MSTATUS {
      MstatusAccessQuiet(s, op, rd, rs1, word);
    } else {
      OtherAccessQuiet(s, op, rd, rs1, a, word);
    }
  }

  lemma QuietMeans(s: State)
    requires Quiet(s)
    ensures s.mode == Csr.MACHINE
  {
    hide Bit, Reachable.MstatusOk;
  }

  lemma MretQuiet(s: State, word: bv32)
    requires Quiet(s)
    ensures Leaves(s, Mret, ExecMret(s, word))
  {
    var mstatus := s.csr(Csr.MSTATUS);
    Traps.PoppedFields(mstatus);
    OneBitWord(mstatus, 7);
    Traps.PushedOk(mstatus, s.mode);
    WriteOfMstatus(s.csr, PopMachine(mstatus));
    hide Csr.Write, PopMachine, Csr.LegalMstatus, Bit, Reachable.MstatusOk, TakeTrap;
  }

  lemma SretQuiet(s: State, word: bv32)
    requires Quiet(s)
    ensures !Masked(ExecSret(s, word))
  {
    SupervisorMode(s.csr(Csr.MSTATUS));
    hide Csr.Write, PopSupervisor, Bit, Reachable.MstatusOk, TakeTrap;
  }

  lemma SupervisorMode(mstatus: bv32)
    ensures ((mstatus >> 8) & 1) as bv2 != Csr.MACHINE
  {
  }

  lemma SfenceQuiet(s: State, word: bv32)
    requires Quiet(s)
    ensures Quiet(ExecSfence(s, word))
  {
    hide Quiet, TakeTrap;
    TrapQuiet(s, ILLEGAL_INSTRUCTION, word);
  }

  lemma SystemQuiet(s: State, i: Instr, word: bv32)
    requires Quiet(s) && IsSystem(i)
    ensures Leaves(s, i, After(Exec(s, i, word), s))
  {
    hide Quiet, Masked, Exec, ExecCsr, ExecMret, ExecSret, ExecSfence, TakeTrap, EcallCause, WritesCsr, CsrResult, CsrOperand, Bit, Traps.Mpp;
    if i.CsrAccess? {
      ExecOfCsr(s, i.cop, i.rd, i.rs1, i.csr, word);
      CsrQuiet(s, i.cop, i.rd, i.rs1, i.csr, word);
    } else if i.SfenceVma? || i.Mret? || i.Sret? {
      ExecOfPrivileged(s, i, word);
      SfenceQuiet(s, word);
      MretQuiet(s, word);
      SretQuiet(s, word);
    } else {
      ExecOfTrap(s, i, word);
      TrapQuiet(s, if i.Ecall? then EcallCause(s.mode) else BREAKPOINT, 0);
    }
  }

  lemma OtherQuiet(s: State, i: Instr, word: bv32)
    requires Quiet(s) && !IsSystem(i)
    ensures Leaves(s, i, After(Exec(s, i, word), s))
  {
    hide Quiet, Masked, Exec, IsMemory, CleanFault, After, BusFacts.SameSatp, WritesCsr, CsrResult, CsrOperand, Bit, Traps.Mpp;
    if IsMemory(i) {
      MemoryKeeps(s, i, word);
    } else {
      PlainKeeps(s, i, word);
    }
    QuietFrom(s, After(Exec(s, i, word), s));
  }

  /** In M-mode with MIE clear, an instruction leaves it so exactly when it is none of those. */
  lemma ExecQuiet(s: State, i: Instr, word: bv32)
    requires Quiet(s)
    ensures Leaves(s, i, After(Exec(s, i, word), s))
  {
    hide Quiet, Exec, After, IsSystem, Leaves;
    if IsSystem(i) {
      SystemQuiet(s, i, word);
    } else {
      OtherQuiet(s, i, word);
    }
  }

  lemma SettleQuiet(s: State)
    requires Quiet(s)
    ensures Quiet(Settle(s)) && InterruptOf(Settle(s)) == NO_INTERRUPT && Deliver(Settle(s)) == Settle(s)
  {
    hide Bit, Reachable.MstatusOk, PendingAfter, InterruptOf, TakeTrap;
    QuietFrom(s, Settle(s));
    MaskedTakesNothing(Settle(s));
  }

  /** One turn in a machine-level handler: no interrupt, and still M-mode with MIE clear. */
  lemma StepQuiet(s: State)
    requires Quiet(s) && !Unmasks(s)
    ensures !TakesInterrupt(s)
    ensures Step(s).Running? ==> Quiet(Step(s).state)
  {
    hide Quiet, Masked, Bus.Read32, HartOf, FallThrough, TakeTrap, PageFaultCause, Exec, Decode, Expand, Settle, Deliver, InterruptOf, SetsOrLeaves;
    match Bus.Read32(s.mem, HartOf(s), s.pc, true)
    case PageFault(a, k, m) =>
      QuietFrom(s, s.(mem := m));
      TrapQuiet(s.(mem := m), PageFaultCause(k), a);
    case Done(raw, m) =>
      var s1, word := s.(mem := m, nextPc := FallThrough(s.pc, raw)), Expand(raw);
      QuietFrom(s, s1);
      if !(word == 0 && s.pc == 0) {
        ExecQuiet(s1, Decode(word), word);
        match Exec(s1, Decode(word), word)
        case Next(t) => SettleQuiet(t);
        case Rejected(t) => TrapQuiet(t, ILLEGAL_INSTRUCTION, raw);
        case Fault(a, k, t) => TrapQuiet(t, PageFaultCause(k), a);
        case Undefined =>
      }
  }

  /** The condition is exact: a turn that completes an instruction in a machine-level handler has
      left M-mode or set MIE, when interrupts are looked at, if and only if it unmasks. */
  lemma UnmasksExactly(s: State, s1: State, i: Instr, word: bv32, t: State)
    requires Quiet(s) && Executing(s) == Mmio.Some((s1, i, word)) && Exec(s1, i, word) == Next(t)
    ensures Masked(Settle(t)) <==> !Unmasks(s)
  {
    ExecutingQuiet(s);
    ExecQuiet(s1, i, word);
    SettledMask(t);
    hide Masked, Settle, Exec, Executing, SetsOrLeaves, Traps.Legal;
  }

  lemma ExecutingQuiet(s: State)
    requires Quiet(s) && Executing(s).Some?
    ensures Quiet(Executing(s).value.0)
  {
    hide Quiet, Bus.Read32, HartOf, FallThrough, Decode, Expand;
    QuietFrom(s, Executing(s).value.0);
  }

  lemma SettledMask(t: State)
    ensures Masked(Settle(t)) <==> Masked(t)
  {
    hide Bit, PendingAfter;
  }

  /** A turn under keyboard input that neither sets MIE nor leaves M-mode. */
  ghost predicate QuietStep(s: State, t: State) {
    exists key: Mmio.Option<bv32> :: !Unmasks(Poll(s, key)) && Step(Poll(s, key)) == Running(t)
  }

  lemma PollQuiet(s: State, key: Mmio.Option<bv32>)
    requires Quiet(s)
    ensures Quiet(Poll(s, key))
  {
    hide Quiet;
    QuietFrom(s, Poll(s, key));
  }

  lemma QuietStepKeeps(s: State, t: State)
    requires Quiet(s) && QuietStep(s, t)
    ensures Quiet(t)
  {
    hide Quiet, Unmasks, Step, Poll, TakesInterrupt;
    var key: Mmio.Option<bv32> :| !Unmasks(Poll(s, key)) && Step(Poll(s, key)) == Running(t);
    PollQuiet(s, key);
    StepQuiet(Poll(s, key));
  }

  /** After a trap into M-mode, until a step sets MIE or leaves M-mode, the hart stays in M-mode
      with MIE clear and no step takes an interrupt, whatever the devices and the keyboard do. */
  lemma {:induction false} HandlerUndisturbed(s: State, cause: bv32, value: bv32, run: seq<State>, i: nat, key: Mmio.Option<bv32>)
    requires Traps.Legal(s) && !Delegated(s, cause)
    requires |run| > 0 && run[0] == TakeTrap(s, cause, value)
    requires forall j :: 0 <= j < |run| - 1 ==> QuietStep(run[j], run[j + 1])
    requires i < |run|
    ensures Masked(run[i]) && Traps.Legal(run[i])
    ensures !Unmasks(Poll(run[i], key)) ==> !TakesInterrupt(Poll(run[i], key))
    decreases i
  {
    hide Masked, Traps.Legal, Delegated, TakeTrap, QuietStep, Unmasks, TakesInterrupt, Poll, Step;
    if i == 0 {
      FirstTrapQuiet(s, cause, value);
    } else {
      HandlerUndisturbed(s, cause, value, run, i - 1, key);
      assert QuietStep(run[i - 1], run[i - 1 + 1]);
      QuietStepKeeps(run[i - 1], run[i]);
    }
    PollQuiet(run[i], key);
    if !Unmasks(Poll(run[i], key)) {
      StepQuiet(Poll(run[i], key));
    }
  }

  lemma FirstTrapQuiet(s: State, cause: bv32, value: bv32)
    requires Traps.Legal(s) && !Delegated(s, cause)
    ensures Quiet(TakeTrap(s, cause, value))
  {
    hide Delegated, TakeTrap, Bit, Traps.Mpp, Reachable.MstatusOk;
    Traps.MachineTrapPushes(s, cause, value);
    Traps.MachineTrapIsExcursion(s, cause, value);
  }
}
