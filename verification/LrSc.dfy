/** LR/SC over whole runs in which loads and stores reach their own addresses: with a direct map,
    or with translation off. */
module LrSc {
  import opened BareMemory
  import opened DirectMemory
  import opened Effects
  import opened ExecFacts
  import opened Interrupts
  import opened Isa
  import opened Machine
  import opened StoredBytes
  import Alu
  import Bus
  import BusFacts
  import Csr
  import Mmio

  /** Every byte that a store, LR.W, SC.W or AMO executed in `s` reaches lies at its own address;
      any of them may fault. Of SC.W only the translation that the reservation is compared with
      matters. */
  predicate AccessAtHome(s: State, i: Instr) {
    match i
    case Store(op, rs1, rs2, imm) => StoreAtHome(s.mem, HartOf(s), op, Offset(s.regs(rs1), imm), s.regs(rs2))
    case LoadReserved(_, rs1) => ReserveAtHome(s, s.regs(rs1))
    case StoreConditional(_, rs1, _) => AtHome(s.mem, HartOf(s), s.regs(rs1), Bus.Load)
    case Amo(op, _, rs1, rs2) => AmoAtHome(s, op, s.regs(rs1), s.regs(rs2))
    case _ => true
  }

  /** LR.W translates once to load and once to reserve. */
  predicate ReserveAtHome(s: State, v: bv32) {
    Read32AtHome(s.mem, HartOf(s), v)
    && AtHome(Bus.Read32(s.mem, HartOf(s), v, false).mem, HartOf(s), v, Bus.Load)
  }

  predicate AmoAtHome(s: State, op: AmoOp, v: bv32, operand: bv32) {
    match Bus.Read32(s.mem, HartOf(s), v, false)
    case PageFault(_, _, _) => true
    case Done(current, m) => Write32AtHome(m, HartOf(s), v, Alu.AmoResult(op, current, operand))
  }

  /** The instruction of the turn from `s`, if there is one, reaches its own addresses. */
  predicate Direct(s: State) {
    match Executing(s)
    case None => true
    case Some((s1, i, _)) => AccessAtHome(s1, i)
  }

  /** The reservation of `t`, if any, is the one `s` had, and its word has not changed. */
  ghost predicate Intact(s: State, t: State) {
    t.reserved ==>
      s.reserved && t.reservation == s.reservation
      && (Unwrapped(s.reservation) ==> Bus.GetWord(t.mem.ram, s.reservation) == Bus.GetWord(s.mem.ram, s.reservation))
  }

  /** The instruction raises a trap by itself. */
  predicate TrapsInside(s: State, i: Instr) {
    match i
    case Ecall => true
    case Ebreak => true
    case CsrAccess(op, _, rs1, a) => !Csr.CanAccess(a, s.mode, WritesCsr(op, rs1))
    case Mret => s.mode < Csr.MACHINE
    case Sret => s.mode == Csr.USER || (s.mode == Csr.SUPERVISOR && s.csr(Csr.MSTATUS) & TSR != 0)
    case SfenceVma => s.mode < Csr.SUPERVISOR
    case _ => false
  }

  /** An instruction that must end a reservation of the word at `r`: a trap, another SC, or a
      store or AMO that writes a byte of it. */
  predicate Breaks(s: State, i: Instr, r: bv32) {
    match i
    case StoreConditional(_, _, _) => true
    case Store(op, rs1, _, imm) => Seen(op, Offset(s.regs(rs1), imm), r)
    case Amo(_, _, rs1, _) => Seen(SW, s.regs(rs1), r)
    case _ => TrapsInside(s, i)
  }

  /** A trap is taken during the turn from `s`. */
  predicate TakesTrap(s: State) {
    match Executing(s)
    case None => true
    case Some((s1, i, word)) =>
      TrapsInside(s1, i)
      || match Exec(s1, i, word)
         case Next(t) => InterruptOf(Settle(t)) != NO_INTERRUPT
         case _ => true
  }

  // ----- one instruction ----------------------------------------------------------

  lemma SameRamIntact(s: State, t: State)
    requires t.mem.ram == s.mem.ram && t.reserved == s.reserved && t.reservation == s.reservation
    ensures Intact(s, t)
  {
    hide Unwrapped, Bus.GetWord;
  }

  lemma UnseenIntact(s: State, t: State, op: SOp, v: bv32)
    requires ChangesOnly(s.mem, t.mem, op, v)
    requires t.reservation == s.reservation && t.reserved == (s.reserved && !Seen(op, v, s.reservation))
    ensures Intact(s, t)
  {
    hide Unwrapped, Bus.GetWord, Seen, ChangesOnly;
    if t.reserved && Unwrapped(s.reservation) {
      UnseenKeepsWord(s.mem, t.mem, op, v, s.reservation);
    }
  }

  lemma NotifySees(s: State, op: SOp, v: bv32)
    ensures NotifyStore(s, v, StoreSize(op)) == s.(reserved := s.reserved && !Seen(op, v, s.reservation))
  {
    hide Overlaps, StoreSize;
  }

  lemma StoreIntact(s: State, op: SOp, v: bv32, value: bv32)
    requires StoreAtHome(s.mem, HartOf(s), op, v, value)
    ensures Intact(s, After(ExecStore(s, op, v, value), s))
    ensures After(ExecStore(s, op, v, value), s).reserved ==> !Seen(op, v, s.reservation)
  {
    hide StoreAccess, NotifyStore, StoreAtHome, Seen, Intact, ChangesOnly, StoreSize;
    NotifySees(s, op, v);
    StoreAccessChanges(s.mem, HartOf(s), op, v, value);
    UnseenIntact(s, After(ExecStore(s, op, v, value), s), op, v);
  }

  lemma StoreThenWriteChanges(s: State, rd: bv5, v: bv32, value: bv32, result: bv32)
    requires Write32AtHome(s.mem, HartOf(s), v, value)
    ensures var t := After(StoreThenWrite(s, rd, v, value, result), s);
      ChangesOnly(s.mem, t.mem, SW, v) && t.reserved == s.reserved && t.reservation == s.reservation
  {
    hide Bus.Write32, Write32AtHome, ChangesOnly, HartOf;
    Write32Changes(s.mem, HartOf(s), v, value);
  }

  /** SC.W that does not fault ends the reservation, whether or not it stored. */
  lemma ConditionalIntact(s: State, rd: bv5, v: bv32, value: bv32)
    ensures Intact(s, After(ExecStoreConditional(s, rd, v, value), s))
    ensures ExecStoreConditional(s, rd, v, value).Next? ==> !ExecStoreConditional(s, rd, v, value).state.reserved
  {
    hide Bus.Translate, StoreThenWrite, SetRegister, Intact, HartOf;
    var t := Bus.Translate(s.mem, HartOf(s), v, Bus.Load);
    BusFacts.TranslateFrame(s.mem, HartOf(s), v, Bus.Load);
    var s1 := s.(mem := t.mem, reserved := false);
    StoreThenWriteUnreserved(s1, rd, v, value, 0);
    NotReservedIntact(s, After(StoreThenWrite(s1, rd, v, value, 0), s1));
    NotReservedIntact(s, WriteRegister(s1, rd, 1));
    SameRamIntact(s, s.(mem := t.mem));
  }

  lemma StoreThenWriteUnreserved(s: State, rd: bv5, v: bv32, value: bv32, result: bv32)
    requires !s.reserved
    ensures !StoreThenWrite(s, rd, v, value, result).Undefined? && !After(StoreThenWrite(s, rd, v, value, result), s).reserved
  {
    hide Bus.Write32, SetRegister, HartOf;
  }

  lemma NotReservedIntact(s: State, t: State)
    requires !t.reserved
    ensures Intact(s, t)
  {
    hide Unwrapped, Bus.GetWord;
  }

  lemma SameRamChanges(m: Bus.Mem, n: Bus.Mem, p: Bus.Mem, op: SOp, a: bv32)
    requires n.ram == m.ram && ChangesOnly(n, p, op, a)
    ensures ChangesOnly(m, p, op, a)
  {
    hide Covers;
  }

  lemma NotifySame(s: State, v: bv32, size: bv64)
    ensures NotifyStore(s, v, size).mem == s.mem && HartOf(NotifyStore(s, v, size)) == HartOf(s)
  {
    hide Overlaps;
  }

  lemma AmoIntact(s: State, op: AmoOp, rd: bv5, v: bv32, operand: bv32)
    requires AmoAtHome(s, op, v, operand)
    ensures Intact(s, After(ExecAmo(s, op, rd, v, operand), s))
    ensures After(ExecAmo(s, op, rd, v, operand), s).reserved && ExecAmo(s, op, rd, v, operand).Next? ==> !Seen(SW, v, s.reservation)
  {
    hide Bus.Read32, Write32AtHome, StoreThenWrite, NotifyStore, Alu.AmoResult, Seen, Intact, ChangesOnly, HartOf;
    var r := Bus.Read32(s.mem, HartOf(s), v, false);
    BusFacts.Read32Frame(s.mem, HartOf(s), v, false);
    var s0 := s.(mem := r.mem);
    if r.PageFault? {
      SameRamIntact(s, s0);
    } else {
      var s1, value := NotifyStore(s0, v, 4), Alu.AmoResult(op, r.value, operand);
      SameHartLater(s, r.mem);
      NotifySame(s0, v, 4);
      NotifySees(s0, SW, v);
      StoreThenWriteMeans(s1, rd, v, value, r.value);
      StoreThenWriteChanges(s1, rd, v, value, r.value);
      var t := After(StoreThenWrite(s1, rd, v, value, r.value), s1);
      SameRamChanges(s.mem, s1.mem, t.mem, SW, v);
      UnseenIntact(s, t, SW, v);
    }
  }

  lemma SameHartLater(s: State, m: Bus.Mem)
    ensures HartOf(s.(mem := m)) == HartOf(s)
  {
  }

  lemma LoadIntact(s: State, op: LOp, rd: bv5, v: bv32)
    ensures Intact(s, After(ExecLoad(s, op, rd, v), s))
  {
    hide Intact, LoadAccess, SetRegister;
    LoadAccessFrame(s.mem, HartOf(s), op, v);
    SameRamIntact(s, After(ExecLoad(s, op, rd, v), s));
  }

  /** LR.W reserves the address it loads from; rd gets the word there. */
  ghost predicate ReservesAt(s: State, rd: bv5, a: bv32, t: State) {
    && t.reserved && t.reservation == a && t.mem.ram == s.mem.ram
    && (IsRamWord(a) && rd != 0 ==> t.regs(rd) == Bus.GetWord(s.mem.ram, a))
  }

  lemma LoadReservedReserves(s: State, rd: bv5, v: bv32)
    requires ReserveAtHome(s, v) && ExecLoadReserved(s, rd, v).Next?
    ensures ReservesAt(s, rd, v, After(ExecLoadReserved(s, rd, v), s))
  {
    hide Bus.Read32, Read32AtHome, Bus.Translate, Bus.GetWord, Mmio.Readable;
    var r := Bus.Read32(s.mem, HartOf(s), v, false);
    BusFacts.Read32Frame(s.mem, HartOf(s), v, false);
    BusFacts.TranslateFrame(r.mem, HartOf(s), v, Bus.Load);
    if IsRamWord(v) {
      Read32Direct(s.mem, HartOf(s), v);
    }
  }

  lemma TrapIntact(s: State, cause: bv32, value: bv32)
    ensures Intact(s, TakeTrap(s, cause, value)) && !TakeTrap(s, cause, value).reserved
  {
    hide Delegated, SupervisorTrapCsrs, MachineTrapCsrs, Unwrapped, Bus.GetWord;
  }

  lemma CsrIntact(s: State, op: COp, rd: bv5, rs1: bv5, a: bv12, word: bv32)
    ensures var t := After(ExecCsr(s, op, rd, rs1, a, word), s);
      Intact(s, t) && (t.reserved ==> Csr.CanAccess(a, s.mode, WritesCsr(op, rs1)))
  {
    hide Intact, Csr.CanAccess, Csr.Read, Csr.Write, TakeTrap, CsrOperand, CsrResult, SetRegister, WritesCsr;
    TrapIntact(s, ILLEGAL_INSTRUCTION, word);
    if Csr.CanAccess(a, s.mode, WritesCsr(op, rs1)) {
      SameRamIntact(s, After(ExecCsr(s, op, rd, rs1, a, word), s));
    }
  }

  lemma PrivilegedIntact(s: State, word: bv32)
    ensures Intact(s, ExecMret(s, word)) && (ExecMret(s, word).reserved ==> !TrapsInside(s, Mret))
    ensures Intact(s, ExecSret(s, word)) && (ExecSret(s, word).reserved ==> !TrapsInside(s, Sret))
    ensures Intact(s, ExecSfence(s, word)) && (ExecSfence(s, word).reserved ==> !TrapsInside(s, SfenceVma))
  {
    hide Intact, TakeTrap, Csr.Write, PopMachine, PopSupervisor;
    TrapIntact(s, ILLEGAL_INSTRUCTION, word);
    SameRamIntact(s, MachineReturn(s));
    SameRamIntact(s, SupervisorReturn(s));
    SameRamIntact(s, s);
  }

  /** What any instruction but LR leaves of a reservation; a page fault ends it by its trap. */
  ghost predicate Guards(s: State, i: Instr, o: Outcome) {
    Intact(s, After(o, s)) && (o.Next? && o.state.reserved ==> !Breaks(s, i, s.reservation))
  }

  lemma SystemGuards(s: State, i: Instr, word: bv32)
    requires IsSystem(i)
    ensures Guards(s, i, Exec(s, i, word))
  {
    hide Intact, Exec, ExecCsr, ExecMret, ExecSret, ExecSfence, TakeTrap, EcallCause, Seen, Csr.CanAccess, WritesCsr;
    if i.CsrAccess? {
      ExecOfCsr(s, i.cop, i.rd, i.rs1, i.csr, word);
      CsrIntact(s, i.cop, i.rd, i.rs1, i.csr, word);
    } else if i.Ecall? || i.Ebreak? {
      ExecOfTrap(s, i, word);
      TrapIntact(s, if i.Ecall? then EcallCause(s.mode) else BREAKPOINT, 0);
    } else {
      ExecOfPrivileged(s, i, word);
      PrivilegedIntact(s, word);
    }
  }

  lemma MemoryGuards(s: State, i: Instr, word: bv32)
    requires AccessAtHome(s, i) && IsMemory(i) && !i.LoadReserved?
    ensures Guards(s, i, Exec(s, i, word))
  {
    hide AtHome, StoreAtHome, AmoAtHome, ReserveAtHome, Intact, Exec, ExecLoad, ExecStore, ExecStoreConditional, ExecAmo, Seen, Offset, HartOf;
    if i.Load? {
      ExecOfLoad(s, i.lop, i.rd, i.rs1, i.imm, word);
      LoadIntact(s, i.lop, i.rd, Offset(s.regs(i.rs1), i.imm));
    } else if i.Store? {
      ExecOfStore(s, i.sop, i.rs1, i.rs2, i.imm, word);
      StoreIntact(s, i.sop, Offset(s.regs(i.rs1), i.imm), s.regs(i.rs2));
    } else if i.StoreConditional? {
      ExecOfStoreConditional(s, i.rd, i.rs1, i.rs2, word);
      ConditionalIntact(s, i.rd, s.regs(i.rs1), s.regs(i.rs2));
    } else {
      ExecOfAmo(s, i.amo, i.rd, i.rs1, i.rs2, word);
      AmoIntact(s, i.amo, i.rd, s.regs(i.rs1), s.regs(i.rs2));
    }
  }

  lemma PlainGuards(s: State, i: Instr, word: bv32)
    requires !IsMemory(i) && !IsSystem(i)
    ensures Guards(s, i, Exec(s, i, word))
  {
    hide Intact, Exec, Seen;
    PlainKeeps(s, i, word);
    SameRamIntact(s, After(Exec(s, i, word), s));
  }

  /** Whatever else executes, at its own addresses, either ends the reservation or leaves its word
      alone. */
  lemma ExecGuards(s: State, i: Instr, word: bv32)
    requires AccessAtHome(s, i) && !i.LoadReserved?
    ensures Guards(s, i, Exec(s, i, word))
  {
    hide AccessAtHome, Guards, Exec, After, IsSystem, IsMemory;
    if IsSystem(i) {
      SystemGuards(s, i, word);
    } else if IsMemory(i) {
      MemoryGuards(s, i, word);
    } else {
      PlainGuards(s, i, word);
    }
  }

  // ----- one turn ------------------------------------------------------------------

  predicate LoadsReserved(s: State) {
    match Executing(s)
    case None => false
    case Some((_, i, _)) => i.LoadReserved?
  }

  /** The turn from `s` must end a reservation of the word at `r`. */
  predicate BreaksTurn(s: State, r: bv32) {
    TakesTrap(s)
    || match Executing(s)
       case None => true
       case Some((s1, i, _)) => Breaks(s1, i, r)
  }

  /** The turn from `s` to `t` is an LR.W at `a`, and its rd holds the word there. */
  ghost predicate ReadsWord(s: State, a: bv32, t: State) {
    match Executing(s)
    case None => false
    case Some((s1, i, _)) =>
      i.LoadReserved? && s1.regs(i.rs1) == a
      && (IsRamWord(a) && i.rd != 0 ==> t.regs(i.rd) == Bus.GetWord(t.mem.ram, a))
  }

  /** Why `t` holds a reservation after the turn from `s`. */
  ghost predicate Explains(s: State, t: State) {
    ReadsWord(s, t.reservation, t) || (Intact(s, t) && Harmless(s, s.reservation))
  }

  lemma SettleIntact(s: State)
    ensures Settle(s).mem.ram == s.mem.ram && Settle(s).regs == s.regs
    ensures Settle(s).reserved == s.reserved && Settle(s).reservation == s.reservation
  {
    hide PendingAfter;
  }

  lemma DeliverReserved(s: State)
    requires Deliver(s).reserved
    ensures InterruptOf(s) == NO_INTERRUPT && Deliver(s) == s
  {
    hide InterruptOf, TakeTrap;
    TrapIntact(s, INTERRUPT | InterruptOf(s), 0);
  }

  lemma IntactFrom(s: State, s1: State, u: State, t: State)
    requires s1.mem.ram == s.mem.ram && s1.reserved == s.reserved && s1.reservation == s.reservation
    requires t.mem.ram == u.mem.ram && t.reserved == u.reserved && t.reservation == u.reservation
    requires Intact(s1, u)
    ensures Intact(s, t)
  {
    hide Unwrapped, Bus.GetWord;
  }

  /** A turn that executes an instruction and leaves a reservation. */
  lemma ExecExplains(s: State, s1: State, i: Instr, word: bv32, u: State)
    requires Executing(s) == Mmio.Some((s1, i, word)) && Direct(s)
    requires s1.mem.ram == s.mem.ram && s1.reserved == s.reserved && s1.reservation == s.reservation
    requires Exec(s1, i, word) == Next(u) && InterruptOf(Settle(u)) == NO_INTERRUPT && u.reserved
    ensures Explains(s, Settle(u))
  {
    hide Exec, Executing, Settle, InterruptOf, AtHome, StoreAtHome, AmoAtHome, ReserveAtHome, Intact, Breaks, IsRamWord, Bus.GetWord;
    SettleIntact(u);
    if i.LoadReserved? {
      ExecOfLoadReserved(s1, i.rd, i.rs1, word);
      LoadReservedReserves(s1, i.rd, s1.regs(i.rs1));
    } else {
      ExecGuards(s1, i, word);
      IntactFrom(s, s1, u, Settle(u));
      TrapsBreak(s1, i, s.reservation);
    }
  }

  lemma TrapsBreak(s: State, i: Instr, r: bv32)
    ensures TrapsInside(s, i) ==> Breaks(s, i, r)
  {
    hide Seen, Csr.CanAccess, WritesCsr;
  }

  lemma StepExplains(s: State)
    requires Direct(s) && Step(s).Running? && Step(s).state.reserved
    ensures Explains(s, Step(s).state)
  {
    hide Direct, Explains, Bus.Read32, HartOf, FallThrough, TakeTrap, PageFaultCause, Exec, Decode, Expand, Settle, Deliver, InterruptOf;
    BusFacts.Read32Frame(s.mem, HartOf(s), s.pc, true);
    match Bus.Read32(s.mem, HartOf(s), s.pc, true)
    case PageFault(a, k, m) => TrapIntact(s.(mem := m), PageFaultCause(k), a);
    case Done(raw, m) =>
      var s1, word := s.(mem := m, nextPc := FallThrough(s.pc, raw)), Expand(raw);
      match Exec(s1, Decode(word), word)
      case Next(u) =>
        DeliverReserved(Settle(u));
        SettleIntact(u);
        ExecExplains(s, s1, Decode(word), word, u);
      case Rejected(u) => TrapIntact(u, ILLEGAL_INSTRUCTION, raw);
      case Fault(a, k, u) => TrapIntact(u, PageFaultCause(k), a);
      case Undefined =>
  }

  // ----- runs ------------------------------------------------------------------------

  /** A run of the step loop with the keyboard input of each turn. */
  ghost predicate Runs(run: seq<State>, keys: seq<Mmio.Option<bv32>>) {
    |run| == |keys| + 1 && forall i :: 0 <= i < |keys| ==> Step(Poll(run[i], keys[i])) == Running(run[i + 1])
  }

  /** Turn j is the latest LR.W before state n; it was at `a`, nothing since then had to end its
      reservation, and the word at `a` is still the one it read. */
  ghost predicate HeldSince(run: seq<State>, keys: seq<Mmio.Option<bv32>>, j: nat, n: nat, a: bv32)
    requires j < n < |run| == |keys| + 1
  {
    && ReadsWord(Poll(run[j], keys[j]), a, run[j + 1])
    && (forall k :: j < k < n ==> Harmless(Poll(run[k], keys[k]), a))
    && SameWord(run[j + 1], run[n], a)
  }

  /** The turn from `s` is no LR.W, and nothing that must end a reservation of the word at `a`. */
  predicate Harmless(s: State, a: bv32) {
    !LoadsReserved(s) && !BreaksTurn(s, a)
  }

  predicate SameWord(s: State, t: State, a: bv32) {
    Unwrapped(a) ==> Bus.GetWord(t.mem.ram, a) == Bus.GetWord(s.mem.ram, a)
  }

  lemma PollSame(s: State, key: Mmio.Option<bv32>)
    ensures var t := Poll(s, key);
      t.mem.ram == s.mem.ram && t.reserved == s.reserved && t.reservation == s.reservation
  {
  }

  lemma SameWordOn(s: State, t: State, u: State, a: bv32, key: Mmio.Option<bv32>)
    requires SameWord(s, t, a) && Intact(Poll(t, key), u) && u.reserved && t.reservation == a
    ensures SameWord(s, u, a)
  {
    hide Unwrapped, Bus.GetWord;
  }

  lemma HeldOneMore(run: seq<State>, keys: seq<Mmio.Option<bv32>>, j: nat, n: nat, a: bv32)
    requires j < n < |keys| && |run| == |keys| + 1
    requires HeldSince(run, keys, j, n, a)
    requires run[n].reservation == a && run[n + 1].reserved
    requires Harmless(Poll(run[n], keys[n]), a)
    requires Intact(Poll(run[n], keys[n]), run[n + 1])
    ensures HeldSince(run, keys, j, n + 1, a)
  {
    hide Harmless, SameWord, ReadsWord, Poll, Intact;
    SameWordOn(run[j + 1], run[n], run[n + 1], a, keys[n]);
  }

  lemma HeldFromRead(run: seq<State>, keys: seq<Mmio.Option<bv32>>, n: nat, a: bv32)
    requires n < |keys| && |run| == |keys| + 1
    requires ReadsWord(Poll(run[n], keys[n]), a, run[n + 1])
    ensures HeldSince(run, keys, n, n + 1, a)
  {
    hide Harmless, ReadsWord, Poll, Unwrapped, Bus.GetWord;
  }

  lemma {:induction false} ReservationHistory(run: seq<State>, keys: seq<Mmio.Option<bv32>>, n: nat) returns (j: nat)
    requires Runs(run, keys) && n < |run|
    requires !run[0].reserved && run[n].reserved
    requires forall i :: 0 <= i < n ==> Direct(Poll(run[i], keys[i]))
    ensures j < n && HeldSince(run, keys, j, n, run[n].reservation)
  {
    hide Step, Poll, Direct, HeldSince, ReadsWord, Intact, Harmless;
    var s := Poll(run[n - 1], keys[n - 1]);
    assert Step(s) == Running(run[n - 1 + 1]);
    PollSame(run[n - 1], keys[n - 1]);
    StepExplains(s);
    if ReadsWord(s, run[n].reservation, run[n]) {
      j := n - 1;
      HeldFromRead(run, keys, n - 1, run[n].reservation);
    } else {
      IntactMeans(s, run[n]);
      j := ReservationHistory(run, keys, n - 1);
      HeldOneMore(run, keys, j, n - 1, run[n].reservation);
    }
  }

  lemma IntactMeans(s: State, t: State)
    requires Intact(s, t) && t.reserved
    ensures s.reserved && t.reservation == s.reservation
  {
    hide Unwrapped, Bus.GetWord;
  }

  /** SC.W at `v` will store: the hart holds a reservation of the address `v` translates to. */
  predicate Holds(s: State, v: bv32) {
    var t := Bus.Translate(s.mem, HartOf(s), v, Bus.Load);
    t.Done? && s.reserved && s.reservation == t.value
  }

  /** Whenever SC.W succeeds in a run that started without a reservation, and whose stores, LR.W,
      SC.W and AMOs all reached their own addresses, an LR.W of the same address came before it,
      the latest one; since that LR.W there was no trap, no other SC.W and no store or AMO to any
      byte of the word; and the word still is what that LR.W read. */
  lemma SuccessMeansUntouched(run: seq<State>, keys: seq<Mmio.Option<bv32>>, key: Mmio.Option<bv32>,
                              s: State, rd: bv5, rs1: bv5, rs2: bv5, word: bv32) returns (j: nat)
    requires Runs(run, keys) && !run[0].reserved
    requires forall i :: 0 <= i < |keys| ==> Direct(Poll(run[i], keys[i]))
    requires Executing(Poll(run[|keys|], key)) == Mmio.Some((s, StoreConditional(rd, rs1, rs2), word))
    requires Direct(Poll(run[|keys|], key)) && Holds(s, s.regs(rs1))
    ensures j < |keys| && HeldSince(run, keys, j, |keys|, s.regs(rs1))
  {
    ExecutingSame(Poll(run[|keys|], key));
    PollSame(run[|keys|], key);
    HoldsAtHome(Poll(run[|keys|], key), s, rd, rs1, rs2, word);
    hide Executing, Poll, Step, Direct, HeldSince, Holds;
    j := ReservationHistory(run, keys, |keys|);
  }

  lemma HoldsAtHome(before: State, s: State, rd: bv5, rs1: bv5, rs2: bv5, word: bv32)
    requires Direct(before) && Executing(before) == Mmio.Some((s, StoreConditional(rd, rs1, rs2), word)) && Holds(s, s.regs(rs1))
    ensures s.reserved && s.reservation == s.regs(rs1)
  {
    hide Executing, Bus.Translate;
  }

  lemma ExecutingSame(s: State)
    ensures Executing(s).Some? ==>
      var u := Executing(s).value.0; u.reserved == s.reserved && u.reservation == s.reservation && u.mem.satp == s.mem.satp && HartOf(u) == HartOf(s)
  {
    hide Bus.Read32, FallThrough, Decode, Expand;
    BusFacts.Read32Frame(s.mem, HartOf(s), s.pc, true);
  }

  // ----- translation off ---------------------------------------------------------------

  /** Loads and stores use physical addresses. */
  predicate Bare(s: State) {
    Bus.IsBare(s.mem.satp, HartOf(s), Bus.Store)
  }

  lemma BareReserveAtHome(s: State, v: bv32)
    requires Bare(s)
    ensures ReserveAtHome(s, v)
  {
    hide Bus.IsBare, AtHome, Read32AtHome, Bus.Read32;
    BusFacts.Read32Frame(s.mem, HartOf(s), v, false);
    BareReadAtHome(s.mem, HartOf(s), v);
    BareAtHome(Bus.Read32(s.mem, HartOf(s), v, false).mem, HartOf(s), v, Bus.Load);
  }

  lemma BareStore(s: State, op: SOp, v: bv32, value: bv32)
    requires Bare(s)
    ensures StoreAtHome(s.mem, HartOf(s), op, v, value) && AtHome(s.mem, HartOf(s), v, Bus.Load)
  {
    hide Bus.IsBare, AtHome, StoreAtHome;
    BareStoreAtHome(s.mem, HartOf(s), op, v, value);
    BareAtHome(s.mem, HartOf(s), v, Bus.Load);
  }

  lemma BareStoreAccess(s: State, i: Instr)
    requires Bare(s) && (i.Store? || i.StoreConditional?)
    ensures AccessAtHome(s, i)
  {
    hide Bare, AtHome, StoreAtHome, ReserveAtHome, AmoAtHome, Offset, HartOf;
    if i.Store? {
      BareStore(s, i.sop, Offset(s.regs(i.rs1), i.imm), s.regs(i.rs2));
    } else {
      BareStore(s, SW, s.regs(i.rs1), 0);
    }
  }

  lemma BareAtomicAccess(s: State, i: Instr)
    requires Bare(s) && (i.LoadReserved? || i.Amo?)
    ensures AccessAtHome(s, i)
  {
    hide Bare, AtHome, StoreAtHome, ReserveAtHome, AmoAtHome, Offset, HartOf;
    if i.LoadReserved? {
      BareReserveAtHome(s, s.regs(i.rs1));
    } else {
      BareAmoAtHome(s, i.amo, s.regs(i.rs1), s.regs(i.rs2));
    }
  }

  lemma OtherAccess(s: State, i: Instr)
    requires !(i.Store? || i.StoreConditional? || i.LoadReserved? || i.Amo?)
    ensures AccessAtHome(s, i)
  {
    hide AtHome, StoreAtHome, ReserveAtHome, AmoAtHome, Offset, HartOf;
  }

  lemma BareAccess(s: State, i: Instr)
    requires Bare(s)
    ensures AccessAtHome(s, i)
  {
    hide *;
    if i.Store? || i.StoreConditional? {
      BareStoreAccess(s, i);
    } else if i.LoadReserved? || i.Amo? {
      BareAtomicAccess(s, i);
    } else {
      OtherAccess(s, i);
    }
  }

  lemma BareAmoAtHome(s: State, op: AmoOp, v: bv32, operand: bv32)
    requires Bare(s)
    ensures AmoAtHome(s, op, v, operand)
  {
    hide Bus.IsBare, Write32AtHome, Bus.Read32, Alu.AmoResult;
    BusFacts.Read32Frame(s.mem, HartOf(s), v, false);
    var r := Bus.Read32(s.mem, HartOf(s), v, false);
    if r.Done? {
      BareWordAtHome(r.mem, HartOf(s), v, Alu.AmoResult(op, r.value, operand));
    }
  }

  lemma BareWordAtHome(m: Bus.Mem, h: Bus.Hart, v: bv32, value: bv32)
    requires Bus.IsBare(m.satp, h, Bus.Store)
    ensures Write32AtHome(m, h, v, value)
  {
    BareStoreAtHome(m, h, SW, v, value);
    hide Write32AtHome, Bus.IsBare;
  }

  /** With translation off every turn reaches its own addresses. */
  lemma BareIsDirect(s: State, key: Mmio.Option<bv32>)
    requires Bare(s)
    ensures Direct(Poll(s, key))
  {
    hide Executing, Bus.IsBare, AccessAtHome;
    var t := Poll(s, key);
    ExecutingSame(t);
    PolledBare(s, key);
    if Executing(t).Some? {
      BareAccess(Executing(t).value.0, Executing(t).value.1);
    }
  }

  lemma PolledBare(s: State, key: Mmio.Option<bv32>)
    ensures Poll(s, key).mem.satp == s.mem.satp && HartOf(Poll(s, key)) == HartOf(s)
  {
    hide Mmio.Poll;
  }

  /** So the guarantee holds of every run with translation off. */
  lemma BareSuccessMeansUntouched(run: seq<State>, keys: seq<Mmio.Option<bv32>>, key: Mmio.Option<bv32>,
                                  s: State, rd: bv5, rs1: bv5, rs2: bv5, word: bv32) returns (j: nat)
    requires Runs(run, keys) && !run[0].reserved
    requires forall i :: 0 <= i < |run| ==> Bare(run[i])
    requires Executing(Poll(run[|keys|], key)) == Mmio.Some((s, StoreConditional(rd, rs1, rs2), word))
    requires Holds(s, s.regs(rs1))
    ensures j < |keys| && HeldSince(run, keys, j, |keys|, s.regs(rs1))
  {
    hide Executing, Poll, Step, Direct, HeldSince, Holds, Bare;
    forall i | 0 <= i < |keys|
      ensures Direct(Poll(run[i], keys[i]))
    {
      BareIsDirect(run[i], keys[i]);
    }
    BareIsDirect(run[|keys|], key);
    j := SuccessMeansUntouched(run, keys, key, s, rd, rs1, rs2, word);
  }

  // ----- SC.W ----------------------------------------------------------------------------

  lemma WrittenRegister(s: State, rd: bv5, value: bv32)
    requires rd != 0
    ensures WriteRegister(s, rd, value).regs(rd) == value
  {
  }

  /** With any translation, SC.W faults without storing, or writes 0 to rd exactly when it held the
      reservation, and stores exactly then, at the address reserved, or faults at the store. */
  lemma ConditionalOutcome(s: State, rd: bv5, rs1: bv5, rs2: bv5, word: bv32)
    requires rd != 0
    ensures var o, v := Exec(s, StoreConditional(rd, rs1, rs2), word), s.regs(rs1);
      var t := Bus.Translate(s.mem, HartOf(s), v, Bus.Load);
      var w := Bus.Write32(t.mem, HartOf(s), v, s.regs(rs2));
      && (o.Next? <==> t.Done? && (Holds(s, v) ==> w.Done?))
      && (o.Next? ==> o.state.regs(rd) == (if Holds(s, v) then 0 else 1))
      && (o.Next? ==> o.state.mem == if Holds(s, v) then w.mem else t.mem)
      && (o.Next? ==> !o.state.reserved)
      && (!o.Next? ==> o.Fault? && o.state.regs == s.regs)
  {
    hide *;
    ExecOfStoreConditional(s, rd, rs1, rs2, word);
    ConditionalResult(s, rd, s.regs(rs1), s.regs(rs2));
  }

  lemma ConditionalResult(s: State, rd: bv5, v: bv32, value: bv32)
    requires rd != 0
    ensures var o := ExecStoreConditional(s, rd, v, value);
      var t := Bus.Translate(s.mem, HartOf(s), v, Bus.Load);
      var w := Bus.Write32(t.mem, HartOf(s), v, value);
      && (o.Next? <==> t.Done? && (Holds(s, v) ==> w.Done?))
      && (o.Next? ==> o.state.regs(rd) == (if Holds(s, v) then 0 else 1))
      && (o.Next? ==> o.state.mem == if Holds(s, v) then w.mem else t.mem)
      && (o.Next? ==> !o.state.reserved)
      && (!o.Next? ==> o.Fault? && o.state.regs == s.regs)
  {
    hide Bus.Translate, Bus.Write32, SetRegister;
    var t := Bus.Translate(s.mem, HartOf(s), v, Bus.Load);
    SameHartLater(s, t.mem);
    var s1 := s.(mem := t.mem, reserved := false);
    WrittenRegister(s1, rd, 1);
    WrittenRegister(s1.(mem := Bus.Write32(t.mem, HartOf(s), v, value).mem), rd, 0);
  }
}
