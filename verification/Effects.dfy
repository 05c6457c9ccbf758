/** Vocabulary for what an instruction changes. */
module Effects {
  import opened Isa
  import opened Machine
  import BusFacts

  /** The state an execution leaves; the original one when it has no meaning. */
  function After(o: Outcome, s: State): State {
    match o
    case Next(t) => t
    case Rejected(t) => t
    case Fault(_, _, t) => t
    case Undefined => s
  }

  predicate IsMemory(i: Instr) {
    i.Load? || i.Store? || i.LoadReserved? || i.StoreConditional? || i.Amo?
  }

  predicate IsSystem(i: Instr) {
    i.CsrAccess? || i.Ecall? || i.Ebreak? || i.Mret? || i.Sret? || i.SfenceVma?
  }

  /** CSRs, mode, pc, satp and time are the same, and x0 is still zero if it was. */
  ghost predicate SameControl(s: State, t: State) {
    t.csr == s.csr && t.mode == s.mode && t.pc == s.pc && BusFacts.SameSatp(s.mem, t.mem)
    && (s.regs(0) == 0 ==> t.regs(0) == 0)
  }

  /** A memory instruction that faults has changed no register; the fault carries the
      access type of the access that threw. */
  ghost predicate CleanFault(s: State, o: Outcome) {
    o.Fault? ==> o.state.regs == s.regs && o.state.nextPc == s.nextPc
  }

  /** What every memory instruction guarantees. */
  ghost predicate Keeps(s: State, o: Outcome) {
    SameControl(s, After(o, s)) && CleanFault(s, o)
  }

  /** Only registers and nextPc may differ, x0 is still zero if it was, and nothing faulted. */
  ghost predicate OnlyRegisters(s: State, o: Outcome) {
    !o.Fault? && JustRegisters(s, After(o, s))
  }

  ghost predicate JustRegisters(s: State, t: State) {
    t == s.(regs := t.regs, nextPc := t.nextPc) && (s.regs(0) == 0 ==> t.regs(0) == 0)
  }
}
