/** Runs that stay in user mode: what they leave as the kernel set it up. */
module UserMode {
  import opened Effects
  import opened ExecFacts
  import opened Integrity
  import opened Isa
  import opened Machine
  import opened Words
  import Alu
  import Bus
  import BusFacts
  import Csr
  import Mmio
  import Sv32Manual

  /** Every CSR that user mode may not access is the same, except mip, which the timers
      and the console drive. */
  ghost predicate SamePrivileged(f: Csr.File, g: Csr.File) {
    forall a: bv12 :: Csr.MinMode(a) != Csr.USER && a != Csr.MIP ==> g(a) == f(a)
  }

  /** From the user-mode state `s0`, after user-mode steps to `s`. */
  ghost predicate Kept(s0: State, s: State) {
    && Confined(s0.mem, s.mem, HartOf(s0))
    && (s.mode == Csr.USER ==> SamePrivileged(s0.csr, s.csr))
  }

  /** A user-mode state reached so far. */
  ghost predicate Within(s0: State, s: State) {
    && s0.mode == Csr.USER && s.mode == Csr.USER
    && Separated(s0.mem, HartOf(s0))
    && Kept(s0, s)
  }

  // ----- memory ---------------------------------------------------------------

  lemma DeviceConfined(m0: Bus.Mem, m: Bus.Mem, n: Bus.Mem, h: Bus.Hart)
    requires Confined(m0, m, h) && BusFacts.OnlyDevice(m, n)
    ensures Confined(m0, n, h)
  {
    hide StoreReaches;
  }

  lemma StoreAccessConfined(m0: Bus.Mem, m: Bus.Mem, h: Bus.Hart, op: SOp, v: bv32, value: bv32)
    requires Separated(m0, h) && Confined(m0, m, h)
    ensures Confined(m0, StoreAccess(m, h, op, v, value).mem, h)
  {
    hide Separated, Confined, Bus.Write8, Bus.Write16, Bus.Write32, ByteOf;
    match op
    case SB => Write8Confined(m0, m, h, v, ByteOf(value, 0));
    case SH => Write16Confined(m0, m, h, v, value);
    case SW => Write32Confined(m0, m, h, v, value);
  }

  lemma StoreConfined(m0: Bus.Mem, s: State, op: SOp, v: bv32, value: bv32)
    requires Separated(m0, HartOf(s)) && Confined(m0, s.mem, HartOf(s))
    ensures Confined(m0, After(ExecStore(s, op, v, value), s).mem, HartOf(s))
  {
    hide Separated, Confined, StoreAccess, Overlaps;
    StoreAccessConfined(m0, s.mem, HartOf(s), op, v, value);
  }

  lemma StoreThenWriteConfined(m0: Bus.Mem, s: State, rd: bv5, v: bv32, value: bv32, result: bv32)
    requires Separated(m0, HartOf(s)) && Confined(m0, s.mem, HartOf(s))
    ensures Confined(m0, After(StoreThenWrite(s, rd, v, value, result), s).mem, HartOf(s))
  {
    hide Separated, Confined, Bus.Write32, HartOf;
    Write32Confined(m0, s.mem, HartOf(s), v, value);
  }

  lemma StoreConditionalConfined(m0: Bus.Mem, s: State, rd: bv5, v: bv32, value: bv32)
    requires Separated(m0, HartOf(s)) && Confined(m0, s.mem, HartOf(s))
    ensures Confined(m0, After(ExecStoreConditional(s, rd, v, value), s).mem, HartOf(s))
  {
    hide Separated, Confined, Bus.Translate, StoreThenWrite, BusFacts.OnlyDevice;
    var t := Bus.Translate(s.mem, HartOf(s), v, Bus.Load);
    BusFacts.TranslateFrame(s.mem, HartOf(s), v, Bus.Load);
    DeviceConfined(m0, s.mem, t.mem, HartOf(s));
    var s1 := s.(mem := t.mem, reserved := false);
    StoreThenWriteMeans(s1, rd, v, value, 0);
    StoreThenWriteConfined(m0, s1, rd, v, value, 0);
  }

  lemma AmoConfined(m0: Bus.Mem, s: State, op: AmoOp, rd: bv5, v: bv32, operand: bv32)
    requires Separated(m0, HartOf(s)) && Confined(m0, s.mem, HartOf(s))
    ensures Confined(m0, After(ExecAmo(s, op, rd, v, operand), s).mem, HartOf(s))
  {
    hide Separated, Confined, Bus.Read32, StoreThenWrite, BusFacts.OnlyDevice, Alu.AmoResult, Overlaps;
    var r := Bus.Read32(s.mem, HartOf(s), v, false);
    BusFacts.Read32Frame(s.mem, HartOf(s), v, false);
    DeviceConfined(m0, s.mem, r.mem, HartOf(s));
    if r.Done? {
      var s1, value := NotifyStore(s.(mem := r.mem), v, 4), Alu.AmoResult(op, r.value, operand);
      StoreThenWriteMeans(s1, rd, v, value, r.value);
      StoreThenWriteConfined(m0, s1, rd, v, value, r.value);
    }
  }

  lemma LoadConfined(m0: Bus.Mem, s: State, op: LOp, rd: bv5, v: bv32)
    requires Confined(m0, s.mem, HartOf(s))
    ensures Confined(m0, After(ExecLoad(s, op, rd, v), s).mem, HartOf(s))
  {
    hide Confined, ExecLoad, BusFacts.OnlyDevice;
    LoadKeeps(s, op, rd, v);
    DeviceConfined(m0, s.mem, After(ExecLoad(s, op, rd, v), s).mem, HartOf(s));
  }

  lemma LoadReservedConfined(m0: Bus.Mem, s: State, rd: bv5, v: bv32)
    requires Confined(m0, s.mem, HartOf(s))
    ensures Confined(m0, After(ExecLoadReserved(s, rd, v), s).mem, HartOf(s))
  {
    hide Confined, ExecLoadReserved, BusFacts.OnlyDevice;
    LoadReservedKeeps(s, rd, v);
    DeviceConfined(m0, s.mem, After(ExecLoadReserved(s, rd, v), s).mem, HartOf(s));
  }

  lemma MemoryConfined(m0: Bus.Mem, s: State, i: Instr, word: bv32)
    requires Separated(m0, HartOf(s)) && Confined(m0, s.mem, HartOf(s)) && IsMemory(i)
    ensures Confined(m0, After(Exec(s, i, word), s).mem, HartOf(s))
  {
    hide Separated, Confined, HartOf, Exec, ExecLoad, ExecStore, ExecLoadReserved, ExecStoreConditional, ExecAmo, After;
    if i.Load? {
      ExecOfLoad(s, i.lop, i.rd, i.rs1, i.imm, word);
      LoadConfined(m0, s, i.lop, i.rd, Offset(s.regs(i.rs1), i.imm));
    } else if i.Store? {
      ExecOfStore(s, i.sop, i.rs1, i.rs2, i.imm, word);
      StoreConfined(m0, s, i.sop, Offset(s.regs(i.rs1), i.imm), s.regs(i.rs2));
    } else if i.LoadReserved? {
      ExecOfLoadReserved(s, i.rd, i.rs1, word);
      LoadReservedConfined(m0, s, i.rd, s.regs(i.rs1));
    } else if i.StoreConditional? {
      ExecOfStoreConditional(s, i.rd, i.rs1, i.rs2, word);
      StoreConditionalConfined(m0, s, i.rd, s.regs(i.rs1), s.regs(i.rs2));
    } else {
      ExecOfAmo(s, i.amo, i.rd, i.rs1, i.rs2, word);
      AmoConfined(m0, s, i.amo, i.rd, s.regs(i.rs1), s.regs(i.rs2));
    }
  }

  // ----- CSRs -------------------------------------------------------------------

  /** A CSR user mode may access is no view of a privileged one, and is not satp. */
  lemma UserCsr(a: bv12, isWrite: bool)
    requires Csr.CanAccess(a, Csr.USER, isWrite)
    ensures Csr.MinMode(a) == Csr.USER && Csr.Target(a) == a && a != Csr.SATP
  {
  }

  lemma UserWrite(f: Csr.File, a: bv12, value: bv32)
    requires Csr.MinMode(a) == Csr.USER && Csr.Target(a) == a
    ensures SamePrivileged(f, Csr.Write(f, a, value))
  {
    hide Csr.MinMode, Csr.Target, Csr.Stored, Csr.IsReadOnly;
  }

  lemma SamePrivilegedTransitive(f: Csr.File, g: Csr.File, h: Csr.File)
    requires SamePrivileged(f, g) && SamePrivileged(g, h)
    ensures SamePrivileged(f, h)
  {
    hide Csr.MinMode;
  }

  lemma SameMstatus(f: Csr.File, g: Csr.File)
    requires SamePrivileged(f, g)
    ensures g(Csr.MSTATUS) == f(Csr.MSTATUS)
  {
    assert Csr.MinMode(Csr.MSTATUS) == Csr.MACHINE;
  }

  lemma SameHart(s0: State, s: State)
    requires Within(s0, s)
    ensures HartOf(s) == HartOf(s0)
  {
    hide Separated, Confined, SamePrivileged;
    SameMstatus(s0.csr, s.csr);
  }

  // ----- instructions -------------------------------------------------------------

  lemma TrapKept(s0: State, s: State, cause: bv32, value: bv32)
    requires Confined(s0.mem, s.mem, HartOf(s0))
    ensures Kept(s0, TakeTrap(s, cause, value))
  {
    hide Confined, SamePrivileged, Delegated, SupervisorTrapCsrs, MachineTrapCsrs;
  }

  /** What an instruction leaves in user mode. */
  lemma SameFileKept(s0: State, s: State, t: State)
    requires Within(s0, s) && t.csr == s.csr && t.mode == s.mode && Confined(s0.mem, t.mem, HartOf(s0))
    ensures Kept(s0, t)
  {
    hide Separated, Confined, SamePrivileged;
  }

  lemma PutCsrKept(s0: State, s: State, a: bv12, value: bv32, isWrite: bool)
    requires Within(s0, s) && Csr.CanAccess(a, Csr.USER, isWrite)
    ensures Kept(s0, PutCsr(s, a, value))
  {
    hide Separated, Confined, SamePrivileged, Csr.CanAccess, Csr.Write;
    UserCsr(a, isWrite);
    UserWrite(s.csr, a, value);
    SamePrivilegedTransitive(s0.csr, s.csr, Csr.Write(s.csr, a, value));
  }

  lemma WriteRegisterKept(s0: State, s: State, rd: bv5, value: bv32)
    requires Kept(s0, s)
    ensures Kept(s0, WriteRegister(s, rd, value))
  {
    hide Confined, SamePrivileged, SetRegister, HartOf;
  }

  lemma WithinKept(s0: State, s: State)
    requires Within(s0, s)
    ensures Kept(s0, s) && s.mode == Csr.USER && Confined(s0.mem, s.mem, HartOf(s0)) && Separated(s0.mem, HartOf(s0))
  {
    hide Separated, Confined, SamePrivileged, HartOf;
  }

  lemma CsrKept(s0: State, s: State, op: COp, rd: bv5, rs1: bv5, a: bv12, word: bv32)
    requires Within(s0, s)
    ensures Kept(s0, After(ExecCsr(s, op, rd, rs1, a, word), s))
  {
    WithinKept(s0, s);
    hide Within, Kept, Confined, Csr.CanAccess, Csr.Read, TakeTrap, PutCsr, WriteRegister, CsrOperand, CsrResult, HartOf;
    TrapKept(s0, s, ILLEGAL_INSTRUCTION, word);
    if Csr.CanAccess(a, s.mode, WritesCsr(op, rs1)) {
      var current := Csr.Read(s.csr, s.mem.dev.mtime, a);
      var value := CsrResult(op, current, CsrOperand(s, op, rs1));
      PutCsrKept(s0, s, a, value, WritesCsr(op, rs1));
      WriteRegisterKept(s0, PutCsr(s, a, value), rd, current);
      WriteRegisterKept(s0, s, rd, current);
    }
  }

  lemma PrivilegedKept(s0: State, s: State, word: bv32)
    requires Within(s0, s)
    ensures Kept(s0, ExecMret(s, word)) && Kept(s0, ExecSret(s, word)) && Kept(s0, ExecSfence(s, word))
  {
    WithinKept(s0, s);
    hide Within, Kept, Confined, TakeTrap, HartOf;
    TrapKept(s0, s, ILLEGAL_INSTRUCTION, word);
  }

  lemma CsrInstructionKept(s0: State, s: State, i: Instr, word: bv32)
    requires Within(s0, s) && i.CsrAccess?
    ensures Kept(s0, After(Exec(s, i, word), s))
  {
    hide *;
    ExecOfCsr(s, i.cop, i.rd, i.rs1, i.csr, word);
    CsrKept(s0, s, i.cop, i.rd, i.rs1, i.csr, word);
  }

  lemma TrapInstructionKept(s0: State, s: State, i: Instr, word: bv32)
    requires Within(s0, s) && (i.Ecall? || i.Ebreak?)
    ensures Kept(s0, After(Exec(s, i, word), s))
  {
    WithinKept(s0, s);
    hide Within, Kept, Confined, HartOf, Exec, TakeTrap, EcallCause;
    ExecOfTrap(s, i, word);
    TrapKept(s0, s, if i.Ecall? then EcallCause(s.mode) else BREAKPOINT, 0);
  }

  lemma PrivilegedInstructionKept(s0: State, s: State, i: Instr, word: bv32)
    requires Within(s0, s) && (i.Mret? || i.Sret? || i.SfenceVma?)
    ensures Kept(s0, After(Exec(s, i, word), s))
  {
    hide Within, Kept, Exec, ExecMret, ExecSret, ExecSfence;
    ExecOfPrivileged(s, i, word);
    PrivilegedKept(s0, s, word);
  }

  lemma SystemKept(s0: State, s: State, i: Instr, word: bv32)
    requires Within(s0, s) && IsSystem(i)
    ensures Kept(s0, After(Exec(s, i, word), s))
  {
    hide Within, Kept, Exec, After;
    if i.CsrAccess? {
      CsrInstructionKept(s0, s, i, word);
    } else if i.Ecall? || i.Ebreak? {
      TrapInstructionKept(s0, s, i, word);
    } else {
      PrivilegedInstructionKept(s0, s, i, word);
    }
  }

  lemma MemoryKept(s0: State, s: State, i: Instr, word: bv32)
    requires Within(s0, s) && IsMemory(i)
    ensures Kept(s0, After(Exec(s, i, word), s))
  {
    WithinKept(s0, s);
    hide Within, Kept, Confined, HartOf, Exec, Separated, IsMemory, CleanFault, BusFacts.SameSatp, After;
    SameHart(s0, s);
    MemoryKeeps(s, i, word);
    MemoryConfined(s0.mem, s, i, word);
    SameFileKept(s0, s, After(Exec(s, i, word), s));
  }

  lemma PlainKept(s0: State, s: State, i: Instr, word: bv32)
    requires Within(s0, s) && !IsMemory(i) && !IsSystem(i)
    ensures Kept(s0, After(Exec(s, i, word), s))
  {
    WithinKept(s0, s);
    hide Within, Kept, Confined, HartOf, Exec, Separated, IsMemory, IsSystem, After;
    PlainKeeps(s, i, word);
    SameFileKept(s0, s, After(Exec(s, i, word), s));
  }

  /** One user-mode instruction. */
  lemma ExecKept(s0: State, s: State, i: Instr, word: bv32)
    requires Within(s0, s)
    ensures Kept(s0, After(Exec(s, i, word), s))
  {
    hide *;
    if IsSystem(i) {
      SystemKept(s0, s, i, word);
    } else if IsMemory(i) {
      MemoryKept(s0, s, i, word);
    } else {
      PlainKept(s0, s, i, word);
    }
  }

  // ----- steps and runs --------------------------------------------------------------

  lemma SettleKept(s0: State, s: State)
    requires Kept(s0, s)
    ensures Kept(s0, Settle(s))
  {
    hide StoreReaches, PendingAfter, HartOf, Csr.MinMode;
  }

  lemma DeliverKept(s0: State, s: State)
    requires Kept(s0, s)
    ensures Kept(s0, Deliver(s))
  {
    hide Confined, SamePrivileged, HartOf, InterruptOf, TakeTrap;
    TrapKept(s0, s, INTERRUPT | InterruptOf(s), 0);
  }

  lemma KeptConfined(s0: State, s: State)
    requires Kept(s0, s)
    ensures Confined(s0.mem, s.mem, HartOf(s0))
  {
    hide Confined, SamePrivileged, HartOf;
  }

  lemma DispatchKept(s0: State, s: State, raw: bv32)
    requires Within(s0, s)
    ensures Dispatch(s, raw).Running? ==> Kept(s0, Dispatch(s, raw).state)
  {
    hide Within, Kept, Exec, Decode, Expand, Settle, Deliver, TakeTrap, PageFaultCause, Confined;
    var word := Expand(raw);
    ExecKept(s0, s, Decode(word), word);
    match Exec(s, Decode(word), word)
    case Next(t) =>
      SettleKept(s0, t);
      DeliverKept(s0, Settle(t));
    case Rejected(t) =>
      KeptConfined(s0, t);
      TrapKept(s0, t, ILLEGAL_INSTRUCTION, raw);
    case Fault(a, k, t) =>
      KeptConfined(s0, t);
      TrapKept(s0, t, PageFaultCause(k), a);
    case Undefined =>
  }

  lemma FetchedWithin(s0: State, s: State, m: Bus.Mem, next: bv32)
    requires Within(s0, s) && BusFacts.OnlyDevice(s.mem, m)
    ensures Confined(s0.mem, m, HartOf(s0)) && Within(s0, s.(mem := m, nextPc := next))
  {
    hide Separated, Confined, SamePrivileged, HartOf, BusFacts.OnlyDevice;
    DeviceConfined(s0.mem, s.mem, m, HartOf(s0));
  }

  lemma StepKept(s0: State, s: State)
    requires Within(s0, s)
    ensures Step(s).Running? ==> Kept(s0, Step(s).state)
  {
    hide Within, Kept, Confined, Bus.Read32, HartOf, Dispatch, FallThrough, TakeTrap, PageFaultCause, BusFacts.OnlyDevice;
    BusFacts.Read32Frame(s.mem, HartOf(s), s.pc, true);
    match Bus.Read32(s.mem, HartOf(s), s.pc, true)
    case PageFault(a, k, m) =>
      FetchedWithin(s0, s, m, s.nextPc);
      TrapKept(s0, s.(mem := m), PageFaultCause(k), a);
    case Done(raw, m) =>
      FetchedWithin(s0, s, m, FallThrough(s.pc, raw));
      DispatchKept(s0, s.(mem := m, nextPc := FallThrough(s.pc, raw)), raw);
  }

  lemma PollWithin(s0: State, s: State, key: Mmio.Option<bv32>)
    requires Within(s0, s)
    ensures Within(s0, Poll(s, key))
  {
    hide Separated, StoreReaches, SamePrivileged, HartOf;
  }

  lemma FollowsKept(s0: State, s: State, t: State)
    requires Within(s0, s) && Follows(s, t)
    ensures Kept(s0, t)
  {
    hide Within, Kept, Step, Poll;
    var key: Mmio.Option<bv32> :| Step(Poll(s, key)) == Running(t);
    PollWithin(s0, s, key);
    StepKept(s0, Poll(s, key));
  }

  /** A run whose states before the last are in user mode, over page tables user mode
      cannot store to. */
  ghost predicate UserRun(run: seq<State>) {
    && IsRun(run)
    && Separated(run[0].mem, HartOf(run[0]))
    && run[0].mode == Csr.USER
    && forall i :: 0 <= i < |run| - 1 ==> run[i].mode == Csr.USER
  }

  lemma StartKept(s: State)
    requires s.mode == Csr.USER
    ensures Kept(s, s)
  {
    hide StoreReaches, HartOf, Csr.MinMode;
  }

  lemma KeptWithin(s0: State, s: State)
    requires Kept(s0, s) && s0.mode == Csr.USER && s.mode == Csr.USER && Separated(s0.mem, HartOf(s0))
    ensures Within(s0, s)
  {
    hide Kept, Separated, HartOf;
  }

  lemma {:induction false} RunKept(run: seq<State>, i: nat)
    requires UserRun(run) && i < |run|
    ensures Kept(run[0], run[i])
  {
    hide Kept, Within, Follows, Separated, HartOf;
    if i == 0 {
      StartKept(run[0]);
    } else {
      RunKept(run, i - 1);
      KeptWithin(run[0], run[i - 1]);
      assert Follows(run[i - 1], run[i - 1 + 1]);
      FollowsKept(run[0], run[i - 1], run[i]);
    }
  }

  lemma ConsultedWord(m0: Bus.Mem, m: Bus.Mem, h: Bus.Hart, v: bv32, p: bv32)
    requires Separated(m0, h) && Confined(m0, m, h) && Consults(m0, v, p)
    ensures Bus.GetWord(m.ram, p) == Bus.GetWord(m0.ram, p)
  {
    hide Confined, WordReached, Mmio.Readable, Consults, Bus.GetWord;
    SameWord(m0, m, h, p);
  }

  lemma UntouchedByte(m0: Bus.Mem, m: Bus.Mem, h: Bus.Hart, a: bv32)
    requires Confined(m0, m, h) && !StoreReaches(m0, h, a)
    ensures m.ram(a) == m0.ram(a) && m.satp == m0.satp
  {
    hide StoreReaches;
  }

  /** At every state of such a run, the one the final trap leads to included: satp, the page
      tables and all of RAM outside the user's own writable pages are as they were at the
      start, and so is every translation. */
  lemma MemoryIntegrity(run: seq<State>, i: nat)
    requires UserRun(run) && i < |run|
    ensures var m0, m, h := run[0].mem, run[i].mem, HartOf(run[0]);
      && m.satp == m0.satp
      && (forall a: bv32 :: !StoreReaches(m0, h, a) ==> m.ram(a) == m0.ram(a))
      && (forall v: bv32, p: bv32 :: Consults(m0, v, p) ==> Bus.GetWord(m.ram, p) == Bus.GetWord(m0.ram, p))
      && (forall v: bv32, kind: Bus.AccessType :: Bus.Translate(m, h, v, kind) == WithMem(Bus.Translate(m0, h, v, kind), m))
  {
    RunKept(run, i);
    KeptConfined(run[0], run[i]);
    var m0, m, h := run[0].mem, run[i].mem, HartOf(run[0]);
    assert Separated(m0, h) && Confined(m0, m, h);
    hide *;
    SameSatp(m0, m, h);
    forall a: bv32 | !StoreReaches(m0, h, a)
      ensures m.ram(a) == m0.ram(a)
    {
      UntouchedByte(m0, m, h, a);
    }
    forall v: bv32, p: bv32 | Consults(m0, v, p)
      ensures Bus.GetWord(m.ram, p) == Bus.GetWord(m0.ram, p)
    {
      ConsultedWord(m0, m, h, v, p);
    }
    forall v: bv32, kind: Bus.AccessType
      ensures Bus.Translate(m, h, v, kind) == WithMem(Bus.Translate(m0, h, v, kind), m)
    {
      TranslateStable(m0, m, h, v, kind);
    }
  }

  /** In its user-mode states no CSR above user level but mip has changed. */
  lemma CsrIntegrity(run: seq<State>, i: nat, a: bv12)
    requires UserRun(run) && i < |run| && run[i].mode == Csr.USER
    requires Csr.MinMode(a) != Csr.USER && a != Csr.MIP
    ensures run[i].csr(a) == run[0].csr(a)
  {
    RunKept(run, i);
    hide Csr.MinMode, Confined, HartOf, Follows;
  }

  // ----- which bytes are within reach ---------------------------------------------------

  /** V, R, W, U, A and D are all set. */
  predicate UserWritable(pte: bv32) {
    pte & 0xD7 == 0xD7
  }

  /** The walk for `v` ends in a leaf user mode can store through. */
  predicate HasUserLeaf(m: Bus.Mem, v: bv32) {
    var root := Sv32Manual.RootEntry(m, v);
    root & Bus.PTE_V != 0
    && if Bus.IsLeaf(root) then UserWritable(root) && (root >> 10) & 0x3FF == 0
       else UserWritable(Sv32Manual.SecondEntry(m, v))
  }

  lemma PageWritable(mstatus: bv32, pte: bv32)
    ensures Bus.PageFaults(Csr.USER, mstatus, pte, Bus.Store) <==> !UserWritable(pte)
  {
  }

  lemma SuperpageWritable(mstatus: bv32, pte: bv32)
    requires pte & Bus.PTE_V != 0
    ensures Bus.SuperpageFaults(Csr.USER, mstatus, pte, Bus.Store) <==> !(UserWritable(pte) && (pte >> 10) & 0x3FF == 0)
  {
  }

  lemma UserFrame(m: Bus.Mem, mstatus: bv32, v: bv32)
    ensures Bus.Frame(m, Csr.USER, mstatus, v, Bus.Store).0.Some? <==> HasUserLeaf(m, v)
  {
    var (pte1, m1) := Bus.ReadPhysical(m, Bus.Pte1Address(m.satp, v));
    var (pte0, m0) := Bus.ReadPhysical(m1, Bus.Pte0Address(pte1, v));
    assert pte1 == Sv32Manual.RootEntry(m, v) && pte0 == Sv32Manual.SecondEntry(m, v);
    hide Bus.ReadPhysical, Bus.Frame, Bus.SuperpageFaults, Bus.PageFaults, UserWritable, Bus.IsLeaf, Bus.Pte1Address, Bus.Pte0Address,
         Sv32Manual.RootEntry, Sv32Manual.SecondEntry;
    if pte1 & Bus.PTE_V == 0 {
      Sv32Manual.FrameInvalid(m, Csr.USER, mstatus, v, Bus.Store, pte1, m1);
    } else if Bus.IsLeaf(pte1) {
      Sv32Manual.FrameSuperpage(m, Csr.USER, mstatus, v, Bus.Store, pte1, m1);
      SuperpageWritable(mstatus, pte1);
    } else {
      Sv32Manual.FrameIs(m, Csr.USER, mstatus, v, Bus.Store, pte1, m1);
      Sv32Manual.FrameLast(m1, Csr.USER, mstatus, pte1, v, Bus.Store, pte0, m0);
      PageWritable(mstatus, pte0);
    }
  }

  /** With paging on, user mode can store to `v` exactly when the walk for `v` ends in a leaf
      with V, R, W, U, A and D set. */
  lemma ReachedThroughUserLeaf(m: Bus.Mem, h: Bus.Hart, v: bv32)
    requires h.mode == Csr.USER && m.satp & 0x8000_0000 != 0
    ensures StoreTarget(m, h, v).Some? <==> HasUserLeaf(m, v)
  {
    hide Bus.Frame, Bus.Compose, HasUserLeaf;
    UserFrame(m, h.mstatus, v);
  }

  lemma BareReachesAll(m: Bus.Mem, h: Bus.Hart, p: bv32)
    requires m.satp & 0x8000_0000 == 0
    ensures StoreReaches(m, h, p)
  {
    hide Bus.Frame, Bus.Compose;
    Reaches(m, h, p, p);
  }

  /** With paging off everything is within reach, so page tables are separated only with paging on. */
  lemma SeparatedMeansPaging(m: Bus.Mem, h: Bus.Hart)
    requires Separated(m, h)
    ensures m.satp & 0x8000_0000 != 0
  {
    hide Consults, StoreReaches, Mmio.Readable, Bus.Pte1Address;
    var p := Bus.Pte1Address(m.satp, 0);
    EntriesConsulted(m, 0);
    if m.satp & 0x8000_0000 == 0 {
      BareReachesAll(m, h, p);
    }
  }
}
