/** Which trap goes where: delegation, the interrupt a turn takes, and the traps instructions raise. */
module Delegation {
  import opened Arithmetic
  import opened ExecFacts
  import opened Faults
  import opened Interrupts
  import opened Isa
  import opened Machine
  import opened Words
  import Bus
  import BusFacts
  import Computes
  import Csr
  import CsrLaws
  import Mmio
  import Traps

  // ----- where a trap goes ------------------------------------------------------------

  /** From U and S a trap goes to S-mode if and only if the bit of its number is set in the delegation
      register of its kind; from M-mode, never. Either way the handler of that mode finds the pc,
      the cause and the value. */
  lemma TrapGoes(s: State, cause: bv32, value: bv32)
    ensures var t, register := TakeTrap(s, cause, value), if Bit(cause, 31) == 1 then Csr.MIDELEG else Csr.MEDELEG;
      && (s.mode == Csr.USER || s.mode == Csr.SUPERVISOR ==>
            (t.mode == Csr.SUPERVISOR <==> Bit(s.csr(register), Traps.CauseNumber(cause)) == 1))
      && (s.mode == Csr.MACHINE ==> t.mode == Csr.MACHINE)
      && (t.mode == Csr.SUPERVISOR || t.mode == Csr.MACHINE)
      && Reports(s, t, cause, value)
  {
    hide TakeTrap, Bit, Traps.CauseNumber;
    TrapReports(s, cause, value);
  }

  lemma MipOfTrap(s: State, cause: bv32, value: bv32)
    requires cause & INTERRUPT != 0
    ensures SupervisorTrapCsrs(s, cause, value)(Csr.MIP) == Csr.Write(s.csr, Csr.SIP, CauseBit(cause))(Csr.MIP)
    ensures Csr.Write(s.csr, Csr.SIP, CauseBit(cause))(Csr.MIP)
         == Csr.Merge(s.csr(Csr.MIP), CauseBit(cause), And(s.csr(Csr.MIDELEG), Csr.MIP_WRITABLE))
  {
    hide PushSupervisor, Csr.LegalMstatus, Csr.Merge, CauseBit;
  }

  lemma CauseBitHas(cause: bv32, n: bv5)
    ensures Has(CauseBit(cause), n) <==> n == Traps.CauseNumber(cause)
  {
  }

  lemma MipAfterTrap(s: State, cause: bv32, value: bv32)
    requires Traps.GoesToSupervisor(s, cause) && Bit(cause, 31) == 1
    ensures TakeTrap(s, cause, value).csr(Csr.MIP)
         == Csr.Merge(s.csr(Csr.MIP), CauseBit(cause), And(s.csr(Csr.MIDELEG), Csr.MIP_WRITABLE))
  {
    hide Bit, Delegated, Traps.GoesToSupervisor, SupervisorTrapCsrs, MachineTrapCsrs, CauseBit, Csr.Write, Csr.Merge, And;
    Traps.DelegatedExactly(s, cause);
    Traps.InterruptBit(cause);
    MipOfTrap(s, cause, value);
  }

  lemma RewrittenBit(before: bv32, cause: bv32, mideleg: bv32, n: bv5)
    ensures Has(Csr.Merge(before, CauseBit(cause), And(mideleg, Csr.MIP_WRITABLE)), n) <==>
      if Has(mideleg, n) && CsrLaws.InMip(n) then n == Traps.CauseNumber(cause) else Has(before, n)
  {
    hide *;
    CauseBitHas(cause, n);
    CsrLaws.MaskBits(n);
    AndHas(mideleg, Csr.MIP_WRITABLE, n);
    CsrLaws.MergeBit(before, CauseBit(cause), And(mideleg, Csr.MIP_WRITABLE), n);
  }

  /** A delegated interrupt rewrites the delegated bits of mip that software may write: its own is set
      and the others are cleared. No other bit of mip changes. */
  lemma DelegatedInterruptRewritesMip(s: State, cause: bv32, value: bv32, n: bv5)
    requires Traps.GoesToSupervisor(s, cause) && Bit(cause, 31) == 1
    ensures Has(TakeTrap(s, cause, value).csr(Csr.MIP), n) <==>
      if Has(s.csr(Csr.MIDELEG), n) && CsrLaws.InMip(n) then n == Traps.CauseNumber(cause) else Has(s.csr(Csr.MIP), n)
  {
    hide *;
    MipAfterTrap(s, cause, value);
    RewrittenBit(s.csr(Csr.MIP), cause, s.csr(Csr.MIDELEG), n);
  }

  // ----- the interrupt that is taken -----------------------------------------------------

  predicate IsMachineNumber(c: bv5) {
    c == 11 || c == 3 || c == 7
  }

  predicate IsSupervisorNumber(c: bv5) {
    c == 9 || c == 1 || c == 5
  }

  /** Interrupt c is pending in mip and enabled in mie; a machine interrupt needs a mode below M or MIE,
      a supervisor interrupt U-mode, or S-mode and SIE. */
  predicate Ready(v: State, c: bv5) {
    && Has(v.csr(Csr.MIP), c) && Has(v.csr(Csr.MIE), c)
    && if IsMachineNumber(c) then v.mode != Csr.MACHINE || Has(v.csr(Csr.MSTATUS), 3)
       else IsSupervisorNumber(c) && (v.mode == Csr.USER || (v.mode == Csr.SUPERVISOR && Has(v.csr(Csr.MSTATUS), 1)))
  }

  /** Place in the order MEI, MSI, MTI, SEI, SSI, STI. */
  function Place(c: bv5): nat {
    if c == 11 then 0 else if c == 3 then 1 else if c == 7 then 2 else if c == 9 then 3 else if c == 1 then 4 else 5
  }

  /** c is the first interrupt that is ready. */
  ghost predicate First(v: State, c: bv5) {
    Ready(v, c) && forall d: bv5 :: Ready(v, d) ==> Place(c) <= Place(d)
  }

  lemma PendingHas(word: bv32)
    ensures IsPending(word, 11) <==> Has(word, 11)
    ensures IsPending(word, 3) <==> Has(word, 3)
    ensures IsPending(word, 7) <==> Has(word, 7)
    ensures IsPending(word, 9) <==> Has(word, 9)
    ensures IsPending(word, 1) <==> Has(word, 1)
    ensures IsPending(word, 5) <==> Has(word, 5)
  {
    PendingBits(word);
    HasBits(word);
    hide IsPending, Has;
  }

  lemma HasBits(word: bv32)
    ensures Has(word, 11) <==> word & 0x800 != 0
    ensures Has(word, 3) <==> word & 0x008 != 0
    ensures Has(word, 7) <==> word & 0x080 != 0
    ensures Has(word, 9) <==> word & 0x200 != 0
    ensures Has(word, 1) <==> word & 0x002 != 0
    ensures Has(word, 5) <==> word & 0x020 != 0
  {
  }

  lemma EnabledHas(mode: Csr.Mode, mstatus: bv32)
    ensures MachineEnabled(mode, mstatus) <==> mode != Csr.MACHINE || Has(mstatus, 3)
    ensures SupervisorEnabled(mode, mstatus) <==> mode == Csr.USER || (mode == Csr.SUPERVISOR && Has(mstatus, 1))
  {
  }

  function Wide(c: bv5): bv32 {
    c as bv32
  }

  lemma Narrow(r: bv32) returns (c: bv5)
    requires IsCause(r)
    ensures r == Wide(c) && (IsMachineNumber(c) || IsSupervisorNumber(c))
  {
    c := if r == 11 then 11 else if r == 3 then 3 else if r == 7 then 7 else if r == 9 then 9 else if r == 1 then 1 else 5;
  }

  lemma CauseIs(c: bv5)
    ensures IsCause(Wide(c)) <==> IsMachineNumber(c) || IsSupervisorNumber(c)
    ensures IsMachineCause(Wide(c)) <==> IsMachineNumber(c)
    ensures IsCause(Wide(c)) ==> Rank(Wide(c)) == Place(c)
    ensures Wide(c) != NO_INTERRUPT
  {
  }

  lemma WidePending(word: bv32, c: bv5)
    requires IsMachineNumber(c) || IsSupervisorNumber(c)
    ensures IsPending(word, Wide(c)) <==> Has(word, c)
  {
    PendingHas(word);
    hide IsPending, Has;
  }

  lemma CanTakeIs(mode: Csr.Mode, mstatus: bv32, pending: bv32, c: bv5)
    ensures CanTake(mode, mstatus, pending, Wide(c)) <==>
      (IsMachineNumber(c) || IsSupervisorNumber(c)) && IsPending(pending, Wide(c))
      && if IsMachineNumber(c) then MachineEnabled(mode, mstatus) else SupervisorEnabled(mode, mstatus)
  {
    hide IsPending, IsCause, IsMachineCause, IsMachineNumber, IsSupervisorNumber, MachineEnabled, SupervisorEnabled,
         Wide, Rank, Place;
    CauseIs(c);
  }

  /** The word the choice is made from: pending and enabled. */
  lemma PendingIs(v: State)
    ensures InterruptOf(v) == SelectInterrupt(v.mode, v.csr(Csr.MSTATUS), And(v.csr(Csr.MIP), v.csr(Csr.MIE)))
  {
    hide SelectInterrupt;
  }

  lemma ReadyIs(v: State, c: bv5)
    ensures Ready(v, c) <==> CanTake(v.mode, v.csr(Csr.MSTATUS), And(v.csr(Csr.MIP), v.csr(Csr.MIE)), Wide(c))
  {
    hide Has, CanTake, IsPending, IsMachineNumber, IsSupervisorNumber, MachineEnabled, SupervisorEnabled, Wide, And;
    var pending := And(v.csr(Csr.MIP), v.csr(Csr.MIE));
    CanTakeIs(v.mode, v.csr(Csr.MSTATUS), pending, c);
    EnabledHas(v.mode, v.csr(Csr.MSTATUS));
    if IsMachineNumber(c) || IsSupervisorNumber(c) {
      WidePending(pending, c);
      AndHas(v.csr(Csr.MIP), v.csr(Csr.MIE), c);
    }
  }

  lemma SamePlace(c: bv5, d: bv5)
    requires IsMachineNumber(c) || IsSupervisorNumber(c)
    requires IsMachineNumber(d) || IsSupervisorNumber(d)
    ensures Place(c) == Place(d) ==> c == d
  {
  }

  lemma ReadyNumbers(v: State, c: bv5)
    requires Ready(v, c)
    ensures IsMachineNumber(c) || IsSupervisorNumber(c)
  {
    hide Has, IsMachineNumber, IsSupervisorNumber;
  }

  /** When some interrupt is ready the first is chosen. */
  lemma FirstIsChosen(v: State, c: bv5)
    requires First(v, c)
    ensures InterruptOf(v) == Wide(c)
  {
    hide Ready, CanTake, SelectInterrupt, InterruptOf, And, IsCause, IsMachineNumber, IsSupervisorNumber, Wide, Rank, Place;
    var mstatus, pending := v.csr(Csr.MSTATUS), And(v.csr(Csr.MIP), v.csr(Csr.MIE));
    PendingIs(v);
    ReadyIs(v, c);
    ReadyNumbers(v, c);
    HighestIsChosen(v.mode, mstatus, pending, Wide(c));
    TakenIsCause(v.mode, mstatus, pending, InterruptOf(v));
    var d := Narrow(InterruptOf(v));
    ReadyIs(v, d);
    CauseIs(c);
    CauseIs(d);
    SamePlace(c, d);
  }

  lemma TakenIsCause(mode: Csr.Mode, mstatus: bv32, pending: bv32, r: bv32)
    requires CanTake(mode, mstatus, pending, r)
    ensures IsCause(r)
  {
    hide IsPending, MachineEnabled, SupervisorEnabled, IsMachineCause;
  }

  /** When none is ready, none is. */
  lemma NoneIsChosen(v: State)
    requires forall c: bv5 :: !Ready(v, c)
    ensures InterruptOf(v) == NO_INTERRUPT
  {
    hide Ready, CanTake, SelectInterrupt, InterruptOf, And, IsCause, IsMachineNumber, IsSupervisorNumber, Wide, Rank;
    var mstatus, pending := v.csr(Csr.MSTATUS), And(v.csr(Csr.MIP), v.csr(Csr.MIE));
    PendingIs(v);
    HighestIsChosen(v.mode, mstatus, pending, 0);
    if InterruptOf(v) != NO_INTERRUPT {
      TakenIsCause(v.mode, mstatus, pending, InterruptOf(v));
      var d := Narrow(InterruptOf(v));
      ReadyIs(v, d);
    }
  }

  lemma InterruptCause(c: bv5)
    ensures Traps.CauseNumber(INTERRUPT | Wide(c)) == c && Bit(INTERRUPT | Wide(c), 31) == 1
  {
  }

  /** A turn that completes an instruction ends in the handler of the first interrupt that is ready
      then, if there is one, and else after the instruction. */
  lemma InterruptTurn(s: State, s1: State, i: Instr, word: bv32, u: State, c: bv5)
    requires Executing(s) == Mmio.Some((s1, i, word)) && Exec(s1, i, word) == Next(u) && !u.mem.dev.spi.lost
    ensures Step(s).Running?
    ensures First(Settle(u), c) ==> Reports(Settle(u), Step(s).state, INTERRUPT | Wide(c), 0)
    ensures (forall d: bv5 :: !Ready(Settle(u), d)) ==> Step(s).state == Settle(u)
  {
    StepDelivers(s, s1, i, word, u);
    hide Executing, Exec, Step, Settle, First, Ready, Reports, TakeTrap, Wide, InterruptOf;
    if First(Settle(u), c) {
      FirstIsChosen(Settle(u), c);
      NotNone(c);
      TrapReports(Settle(u), INTERRUPT | Wide(c), 0);
    }
    if forall d: bv5 :: !Ready(Settle(u), d) {
      NoneIsChosen(Settle(u));
    }
  }

  lemma NotNone(c: bv5)
    ensures Wide(c) != NO_INTERRUPT
  {
  }

  lemma StepDelivers(s: State, s1: State, i: Instr, word: bv32, u: State)
    requires Executing(s) == Mmio.Some((s1, i, word)) && Exec(s1, i, word) == Next(u) && !u.mem.dev.spi.lost
    ensures Step(s) == Running(Deliver(Settle(u)))
  {
    hide Bus.Read32, HartOf, FallThrough, Exec, Decode, Expand, Settle, Deliver;
  }

  lemma StandardNumbers(mideleg: bv32)
    requires StandardDelegation(mideleg)
    ensures Bit(mideleg, 1) == 1 && Bit(mideleg, 5) == 1 && Bit(mideleg, 9) == 1
    ensures Bit(mideleg, 3) != 1 && Bit(mideleg, 7) != 1 && Bit(mideleg, 11) != 1
  {
  }

  /** Interrupt c has taken the hart from `v` to `t`: 1, 5 and 9 to S-mode at stvec, 3, 7 and 11 to
      M-mode at mtvec, with the pc and the cause recorded there. */
  ghost predicate Interrupted(v: State, t: State, c: bv5) {
    if c == 1 || c == 5 || c == 9 then
      t.mode == Csr.SUPERVISOR && t.pc == v.csr(Csr.STVEC) & !3 && t.csr(Csr.SEPC) == v.pc
        && t.csr(Csr.SCAUSE) == INTERRUPT | Wide(c)
    else
      (c == 3 || c == 7 || c == 11)
      && t.mode == Csr.MACHINE && t.pc == v.csr(Csr.MTVEC) & !3 && t.csr(Csr.MEPC) == v.pc
        && t.csr(Csr.MCAUSE) == INTERRUPT | Wide(c)
  }

  lemma StandardReport(v: State, t: State, c: bv5)
    requires Reports(v, t, INTERRUPT | Wide(c), 0) && StandardDelegation(v.csr(Csr.MIDELEG))
    requires (v.mode == Csr.USER || v.mode == Csr.SUPERVISOR) && First(v, c)
    ensures Interrupted(v, t, c)
  {
    FirstNumbers(v, c);
    hide First, Wide, Bit, StandardDelegation, Traps.CauseNumber;
    InterruptCause(c);
    StandardNumbers(v.csr(Csr.MIDELEG));
  }

  /** With the supervisor interrupts delegated and the machine interrupts not, the first interrupt
      ready takes code in U or S where its number says. */
  lemma StandardInterruptTurn(s: State, s1: State, i: Instr, word: bv32, u: State, c: bv5)
    requires Executing(s) == Mmio.Some((s1, i, word)) && Exec(s1, i, word) == Next(u) && !u.mem.dev.spi.lost
    requires First(Settle(u), c) && StandardDelegation(Settle(u).csr(Csr.MIDELEG))
    requires Settle(u).mode == Csr.USER || Settle(u).mode == Csr.SUPERVISOR
    ensures Step(s).Running? && Interrupted(Settle(u), Step(s).state, c)
  {
    hide *;
    InterruptTurn(s, s1, i, word, u, c);
    StandardReport(Settle(u), Step(s).state, c);
  }

  lemma FirstNumbers(v: State, c: bv5)
    requires First(v, c)
    ensures c == 1 || c == 5 || c == 9 || c == 3 || c == 7 || c == 11
  {
    hide Has;
  }

  // ----- traps of instructions ------------------------------------------------------------

  /** ECALL traps with the cause of the calling mode, EBREAK as a breakpoint; both with value 0. */
  lemma CallsReport(s: State, word: bv32)
    ensures var o := Exec(s, Ecall, word);
      o.Next? && Reports(s, o.state, if s.mode == Csr.USER then 8 else if s.mode == Csr.SUPERVISOR then 9 else 11, 0)
    ensures var o := Exec(s, Ebreak, word); o.Next? && Reports(s, o.state, 3, 0)
  {
    hide Exec, TakeTrap, Reports;
    ExecOfTrap(s, Ecall, word);
    ExecOfTrap(s, Ebreak, word);
    TrapReports(s, EcallCause(s.mode), 0);
    TrapReports(s, BREAKPOINT, 0);
  }

  lemma TsrBit(mstatus: bv32)
    ensures mstatus & TSR != 0 <==> Has(mstatus, 22)
  {
  }

  /** MRET below M-mode, SRET from U-mode or from S-mode under TSR, and SFENCE.VMA from U-mode are
      illegal instructions, with the instruction word as the value; else they return, or do nothing. */
  lemma PrivilegedReport(s: State, word: bv32)
    ensures var o := Exec(s, Mret, word);
      o.Next? && if s.mode == Csr.MACHINE then o.state == MachineReturn(s) else Reports(s, o.state, 2, word)
    ensures var o := Exec(s, Sret, word);
      o.Next?
      && if s.mode == Csr.USER || (s.mode == Csr.SUPERVISOR && Has(s.csr(Csr.MSTATUS), 22)) then Reports(s, o.state, 2, word)
         else o.state == SupervisorReturn(s)
    ensures var o := Exec(s, SfenceVma, word);
      o.Next? && if s.mode == Csr.USER then Reports(s, o.state, 2, word) else o.state == s
  {
    TsrBit(s.csr(Csr.MSTATUS));
    hide Exec, TakeTrap, Reports, MachineReturn, SupervisorReturn, Has;
    ExecOfPrivileged(s, Mret, word);
    ExecOfPrivileged(s, Sret, word);
    ExecOfPrivileged(s, SfenceVma, word);
    TrapReports(s, ILLEGAL_INSTRUCTION, word);
  }

  /** A word that is no instruction ends its turn in an illegal instruction trap, with the word as
      fetched as the value, and without time passing. */
  lemma IllegalTurn(s: State, raw: bv32, m: Bus.Mem)
    requires Bus.Read32(s.mem, HartOf(s), s.pc, true) == Bus.Done(raw, m) && Decode(Expand(raw)) == Illegal
    requires !(Expand(raw) == 0 && s.pc == 0) && !s.mem.dev.spi.lost
    ensures Step(s).Running? && Reports(s, Step(s).state, 2, raw) && Unharmed(s, Step(s).state)
  {
    hide Bus.Read32, HartOf, TakeTrap, Reports, FallThrough, Exec, Decode, Expand;
    BusFacts.Read32Frame(s.mem, HartOf(s), s.pc, true);
    var u := s.(mem := m, nextPc := FallThrough(s.pc, raw));
    Computes.IdleInstructions(u, Expand(raw));
    TrapReports(u, ILLEGAL_INSTRUCTION, raw);
    SameReports(s, u, TakeTrap(u, ILLEGAL_INSTRUCTION, raw), 2, raw);
  }

  /** The loop stops exactly when the word 0, or a compressed word that expands to it, is fetched at
      address 0. */
  lemma StopsExactly(s: State)
    ensures Step(s).Halted? <==>
      s.pc == 0 && Bus.Read32(s.mem, HartOf(s), s.pc, true).Done?
        && Expand(Bus.Read32(s.mem, HartOf(s), s.pc, true).value) == 0
  {
    hide Bus.Read32, HartOf, TakeTrap, FallThrough, Exec, Decode, Expand, Settle, Deliver;
  }

  /** What a reported page fault means: from U or S with the bit of its cause set in medeleg the hart is
      in S-mode at stvec, else in M-mode at mtvec. */
  lemma PageFaultReport(s: State, t: State, cause: bv32, value: bv32)
    requires Reports(s, t, cause, value) && (cause == 12 || cause == 13 || cause == 15)
    ensures var medeleg := s.csr(Csr.MEDELEG);
      var delegated := if cause == 12 then Has(medeleg, 12) else if cause == 13 then Has(medeleg, 13) else Has(medeleg, 15);
      if (s.mode == Csr.USER || s.mode == Csr.SUPERVISOR) && delegated then
        t.mode == Csr.SUPERVISOR && t.pc == s.csr(Csr.STVEC) & !3
        && t.csr(Csr.SEPC) == s.pc && t.csr(Csr.SCAUSE) == cause && t.csr(Csr.STVAL) == value
      else
        t.mode == Csr.MACHINE && t.pc == s.csr(Csr.MTVEC) & !3
        && t.csr(Csr.MEPC) == s.pc && t.csr(Csr.MCAUSE) == cause && t.csr(Csr.MTVAL) == value
  {
    PageFaultNumbers();
    hide Bit, Traps.CauseNumber;
  }

  lemma PageFaultNumbers()
    ensures Traps.CauseNumber(12) == 12 && Traps.CauseNumber(13) == 13 && Traps.CauseNumber(15) == 15
    ensures Bit(12, 31) == 0 && Bit(13, 31) == 0 && Bit(15, 31) == 0
  {
  }
}
