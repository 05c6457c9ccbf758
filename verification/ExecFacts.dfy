/** Frame facts of instructions: what execution leaves alone. */
module ExecFacts {
  import opened Effects
  import opened Isa
  import opened Machine
  import opened Words
  import Alu
  import Bus
  import BusFacts

  lemma RegisterZero(regs: bv5 -> bv32, rd: bv5)
    ensures forall value: bv32 :: SetRegister(regs, rd, value)(0) == regs(0)
  {
  }

  lemma LoadAccessFrame(m: Bus.Mem, h: Bus.Hart, op: LOp, v: bv32)
    ensures BusFacts.OnlyDevice(m, LoadAccess(m, h, op, v).mem)
    ensures LoadAccess(m, h, op, v).PageFault? ==> LoadAccess(m, h, op, v).kind == Bus.Load
  {
    hide Bus.Read8, Bus.Read16, Bus.Read32, Alu.SignExtend8, Alu.SignExtend16, BusFacts.OnlyDevice;
    BusFacts.Read8Frame(m, h, v);
    BusFacts.Read16Frame(m, h, v);
    BusFacts.Read32Frame(m, h, v, false);
  }

  lemma StoreAccessFrame(m: Bus.Mem, h: Bus.Hart, op: SOp, v: bv32, value: bv32)
    ensures BusFacts.SameSatp(m, StoreAccess(m, h, op, v, value).mem)
    ensures StoreAccess(m, h, op, v, value).PageFault? ==> StoreAccess(m, h, op, v, value).kind == Bus.Store
  {
    hide Bus.Write8, Bus.Write16, Bus.Write32, ByteOf, BusFacts.SameSatp;
    BusFacts.Write8Frame(m, h, v, ByteOf(value, 0));
    BusFacts.Write16Frame(m, h, v, value);
    BusFacts.Write32Frame(m, h, v, value);
  }

  lemma LoadKeeps(s: State, op: LOp, rd: bv5, v: bv32)
    ensures Keeps(s, ExecLoad(s, op, rd, v))
    ensures BusFacts.OnlyDevice(s.mem, After(ExecLoad(s, op, rd, v), s).mem)
    ensures ExecLoad(s, op, rd, v).Fault? ==> ExecLoad(s, op, rd, v).kind == Bus.Load
  {
    hide LoadAccess, SetRegister;
    LoadAccessFrame(s.mem, HartOf(s), op, v);
    RegisterZero(s.regs, rd);
  }

  lemma StoreKeeps(s: State, op: SOp, v: bv32, value: bv32)
    ensures Keeps(s, ExecStore(s, op, v, value))
    ensures ExecStore(s, op, v, value).Fault? ==> ExecStore(s, op, v, value).kind == Bus.Store
  {
    hide StoreAccess, Overlaps;
    StoreAccessFrame(s.mem, HartOf(s), op, v, value);
  }

  lemma LoadReservedKeeps(s: State, rd: bv5, v: bv32)
    ensures Keeps(s, ExecLoadReserved(s, rd, v))
    ensures BusFacts.OnlyDevice(s.mem, After(ExecLoadReserved(s, rd, v), s).mem)
    ensures ExecLoadReserved(s, rd, v).Fault? ==> ExecLoadReserved(s, rd, v).kind == Bus.Load
  {
    hide Bus.Read32, Bus.Translate, SetRegister;
    var m := Bus.Read32(s.mem, HartOf(s), v, false).mem;
    BusFacts.Read32Frame(s.mem, HartOf(s), v, false);
    BusFacts.TranslateFrame(m, HartOf(s), v, Bus.Load);
    RegisterZero(s.regs, rd);
  }

  lemma StoreThenWriteKeeps(s: State, rd: bv5, v: bv32, value: bv32, result: bv32)
    ensures Keeps(s, StoreThenWrite(s, rd, v, value, result))
  {
    hide Bus.Write32, SetRegister, HartOf;
    BusFacts.Write32Frame(s.mem, HartOf(s), v, value);
    RegisterZero(s.regs, rd);
  }

  lemma KeepsFrom(s: State, t: State, o: Outcome)
    requires t == s.(mem := t.mem, reserved := t.reserved) && BusFacts.OnlyDevice(s.mem, t.mem) && Keeps(t, o)
    requires !o.Undefined?
    ensures Keeps(s, o)
  {
  }

  lemma StoreConditionalKeeps(s: State, rd: bv5, v: bv32, value: bv32)
    ensures Keeps(s, ExecStoreConditional(s, rd, v, value))
  {
    hide Bus.Translate, SetRegister, HartOf, StoreThenWrite, Keeps;
    var t := Bus.Translate(s.mem, HartOf(s), v, Bus.Load);
    BusFacts.TranslateFrame(s.mem, HartOf(s), v, Bus.Load);
    var s1 := s.(mem := t.mem, reserved := false);
    if t.PageFault? {
      FaultKeeps(s, t.address, t.kind, t.mem);
    } else if s.reserved && s.reservation == t.value {
      StoreThenWriteKeeps(s1, rd, v, value, 0);
      StoreThenWriteMeans(s1, rd, v, value, 0);
      KeepsFrom(s, s1, StoreThenWrite(s1, rd, v, value, 0));
    } else {
      WriteKeeps(s1, rd, 1);
      KeepsFrom(s, s1, Next(WriteRegister(s1, rd, 1)));
    }
  }

  lemma StoreThenWriteMeans(s: State, rd: bv5, v: bv32, value: bv32, result: bv32)
    ensures !StoreThenWrite(s, rd, v, value, result).Undefined?
  {
    hide Bus.Write32, WriteRegister, HartOf;
  }

  lemma WriteKeeps(s: State, rd: bv5, value: bv32)
    ensures Keeps(s, Next(WriteRegister(s, rd, value)))
  {
    hide SetRegister;
    RegisterZero(s.regs, rd);
  }

  lemma FaultKeeps(s: State, a: bv32, kind: Bus.AccessType, m: Bus.Mem)
    requires BusFacts.OnlyDevice(s.mem, m)
    ensures Keeps(s, Fault(a, kind, s.(mem := m)))
  {
  }

  lemma AmoKeeps(s: State, op: AmoOp, rd: bv5, v: bv32, operand: bv32)
    ensures Keeps(s, ExecAmo(s, op, rd, v, operand))
  {
    hide Bus.Read32, Alu.AmoResult, Overlaps, HartOf, StoreThenWrite, Keeps;
    var r := Bus.Read32(s.mem, HartOf(s), v, false);
    BusFacts.Read32Frame(s.mem, HartOf(s), v, false);
    if r.PageFault? {
      FaultKeeps(s, r.address, r.kind, r.mem);
    } else {
      var s1, value := NotifyStore(s.(mem := r.mem), v, 4), Alu.AmoResult(op, r.value, operand);
      StoreThenWriteKeeps(s1, rd, v, value, r.value);
      StoreThenWriteMeans(s1, rd, v, value, r.value);
      KeepsFrom(s, s1, StoreThenWrite(s1, rd, v, value, r.value));
    }
  }

  // ----- dispatch, one instruction at a time ---------------------------------

  lemma ExecOfLoad(s: State, op: LOp, rd: bv5, rs1: bv5, imm: bv32, word: bv32)
    ensures Exec(s, Load(op, rd, rs1, imm), word) == ExecLoad(s, op, rd, Offset(s.regs(rs1), imm))
  {
    hide Offset, WriteRegister, TakeTrap, ExecRegister, ExecBranch, ExecJump, Alu.ImmediateResult, EvenTarget, EcallCause, ExecMret, ExecSret, ExecSfence,
         ExecLoad, ExecStore, ExecLoadReserved, ExecStoreConditional, ExecAmo, ExecCsr;
  }

  lemma ExecOfStore(s: State, op: SOp, rs1: bv5, rs2: bv5, imm: bv32, word: bv32)
    ensures Exec(s, Store(op, rs1, rs2, imm), word) == ExecStore(s, op, Offset(s.regs(rs1), imm), s.regs(rs2))
  {
    hide Offset, WriteRegister, TakeTrap, ExecRegister, ExecBranch, ExecJump, Alu.ImmediateResult, EvenTarget, EcallCause, ExecMret, ExecSret, ExecSfence,
         ExecLoad, ExecStore, ExecLoadReserved, ExecStoreConditional, ExecAmo, ExecCsr;
  }

  lemma ExecOfLoadReserved(s: State, rd: bv5, rs1: bv5, word: bv32)
    ensures Exec(s, LoadReserved(rd, rs1), word) == ExecLoadReserved(s, rd, s.regs(rs1))
  {
    hide Offset, WriteRegister, TakeTrap, ExecRegister, ExecBranch, ExecJump, Alu.ImmediateResult, EvenTarget, EcallCause, ExecMret, ExecSret, ExecSfence,
         ExecLoad, ExecStore, ExecLoadReserved, ExecStoreConditional, ExecAmo, ExecCsr;
  }

  lemma ExecOfStoreConditional(s: State, rd: bv5, rs1: bv5, rs2: bv5, word: bv32)
    ensures Exec(s, StoreConditional(rd, rs1, rs2), word) == ExecStoreConditional(s, rd, s.regs(rs1), s.regs(rs2))
  {
    hide Offset, WriteRegister, TakeTrap, ExecRegister, ExecBranch, ExecJump, Alu.ImmediateResult, EvenTarget, EcallCause, ExecMret, ExecSret, ExecSfence,
         ExecLoad, ExecStore, ExecLoadReserved, ExecStoreConditional, ExecAmo, ExecCsr;
  }

  lemma ExecOfAmo(s: State, op: AmoOp, rd: bv5, rs1: bv5, rs2: bv5, word: bv32)
    ensures Exec(s, Amo(op, rd, rs1, rs2), word) == ExecAmo(s, op, rd, s.regs(rs1), s.regs(rs2))
  {
    hide Offset, WriteRegister, TakeTrap, ExecRegister, ExecBranch, ExecJump, Alu.ImmediateResult, EvenTarget, EcallCause, ExecMret, ExecSret, ExecSfence,
         ExecLoad, ExecStore, ExecLoadReserved, ExecStoreConditional, ExecAmo, ExecCsr;
  }

  lemma ExecOfCsr(s: State, op: COp, rd: bv5, rs1: bv5, a: bv12, word: bv32)
    ensures Exec(s, CsrAccess(op, rd, rs1, a), word) == ExecCsr(s, op, rd, rs1, a, word)
  {
    hide Offset, WriteRegister, TakeTrap, ExecRegister, ExecBranch, ExecJump, Alu.ImmediateResult, EvenTarget, EcallCause, ExecMret, ExecSret, ExecSfence,
         ExecLoad, ExecStore, ExecLoadReserved, ExecStoreConditional, ExecAmo, ExecCsr;
  }

  lemma ExecOfTrap(s: State, i: Instr, word: bv32)
    requires i.Ecall? || i.Ebreak?
    ensures Exec(s, i, word) == Next(TakeTrap(s, if i.Ecall? then EcallCause(s.mode) else BREAKPOINT, 0))
  {
    hide Offset, WriteRegister, TakeTrap, ExecRegister, ExecBranch, ExecJump, Alu.ImmediateResult, EvenTarget, EcallCause, ExecMret, ExecSret, ExecSfence,
         ExecLoad, ExecStore, ExecLoadReserved, ExecStoreConditional, ExecAmo, ExecCsr;
  }

  lemma ExecOfPrivileged(s: State, i: Instr, word: bv32)
    requires i.Mret? || i.Sret? || i.SfenceVma?
    ensures Exec(s, i, word)
         == Next(if i.Mret? then ExecMret(s, word) else if i.Sret? then ExecSret(s, word) else ExecSfence(s, word))
  {
    hide Offset, WriteRegister, TakeTrap, ExecRegister, ExecBranch, ExecJump, Alu.ImmediateResult, EvenTarget, EcallCause, ExecMret, ExecSret, ExecSfence,
         ExecLoad, ExecStore, ExecLoadReserved, ExecStoreConditional, ExecAmo, ExecCsr;
  }

  lemma LoadInstruction(s: State, i: Instr, word: bv32)
    requires i.Load?
    ensures Keeps(s, Exec(s, i, word))
  {
    hide *;
    ExecOfLoad(s, i.lop, i.rd, i.rs1, i.imm, word);
    LoadKeeps(s, i.lop, i.rd, Offset(s.regs(i.rs1), i.imm));
  }

  lemma StoreInstruction(s: State, i: Instr, word: bv32)
    requires i.Store?
    ensures Keeps(s, Exec(s, i, word))
  {
    hide *;
    ExecOfStore(s, i.sop, i.rs1, i.rs2, i.imm, word);
    StoreKeeps(s, i.sop, Offset(s.regs(i.rs1), i.imm), s.regs(i.rs2));
  }

  lemma LoadReservedInstruction(s: State, i: Instr, word: bv32)
    requires i.LoadReserved?
    ensures Keeps(s, Exec(s, i, word))
  {
    hide *;
    ExecOfLoadReserved(s, i.rd, i.rs1, word);
    LoadReservedKeeps(s, i.rd, s.regs(i.rs1));
  }

  lemma StoreConditionalInstruction(s: State, i: Instr, word: bv32)
    requires i.StoreConditional?
    ensures Keeps(s, Exec(s, i, word))
  {
    hide *;
    ExecOfStoreConditional(s, i.rd, i.rs1, i.rs2, word);
    StoreConditionalKeeps(s, i.rd, s.regs(i.rs1), s.regs(i.rs2));
  }

  lemma AmoInstruction(s: State, i: Instr, word: bv32)
    requires i.Amo?
    ensures Keeps(s, Exec(s, i, word))
  {
    hide *;
    ExecOfAmo(s, i.amo, i.rd, i.rs1, i.rs2, word);
    AmoKeeps(s, i.amo, i.rd, s.regs(i.rs1), s.regs(i.rs2));
  }

  /** Memory instructions keep the control state, and fault cleanly. */
  lemma MemoryKeeps(s: State, i: Instr, word: bv32)
    requires IsMemory(i)
    ensures Keeps(s, Exec(s, i, word))
  {
    hide Exec, Keeps;
    if i.Load? {
      LoadInstruction(s, i, word);
    } else if i.Store? {
      StoreInstruction(s, i, word);
    } else if i.LoadReserved? {
      LoadReservedInstruction(s, i, word);
    } else if i.StoreConditional? {
      StoreConditionalInstruction(s, i, word);
    } else {
      AmoInstruction(s, i, word);
    }
  }

  lemma WritePlain(s: State, rd: bv5, value: bv32)
    ensures OnlyRegisters(s, Next(WriteRegister(s, rd, value)))
  {
    hide SetRegister;
    RegisterZero(s.regs, rd);
  }

  lemma RegisterPlain(s: State, op: ROp, rd: bv5, a: bv32, b: bv32)
    ensures OnlyRegisters(s, ExecRegister(s, op, rd, a, b))
  {
    hide SetRegister, Alu.Defined, Alu.RegisterResult;
    RegisterZero(s.regs, rd);
  }

  lemma JumpPlain(s: State, rd: bv5, target: bv32)
    ensures OnlyRegisters(s, Next(ExecJump(s, rd, target)))
  {
    hide SetRegister;
    RegisterZero(s.regs, rd);
  }

  lemma BranchPlain(s: State, op: BOp, a: bv32, b: bv32, imm: bv32)
    ensures OnlyRegisters(s, Next(ExecBranch(s, op, a, b, imm)))
  {
    hide Alu.BranchTaken, Offset;
  }

  lemma IdlePlain(s: State)
    ensures OnlyRegisters(s, Next(s)) && OnlyRegisters(s, Rejected(s))
  {
  }

  lemma JumpKeeps(s: State, i: Instr, word: bv32)
    requires i.Branch? || i.Jal? || i.Jalr?
    ensures OnlyRegisters(s, Exec(s, i, word))
  {
    hide OnlyRegisters, ExecRegister, ExecJump, ExecBranch, WriteRegister, Alu.ImmediateResult, Offset, EvenTarget,
         ExecLoad, ExecStore, ExecLoadReserved, ExecStoreConditional, ExecAmo, ExecCsr, TakeTrap, EcallCause, ExecMret, ExecSret, ExecSfence;
    match i
    case Branch(op, rs1, rs2, imm) => BranchPlain(s, op, s.regs(rs1), s.regs(rs2), imm);
    case Jal(rd, imm) => JumpPlain(s, rd, Offset(s.pc, imm));
    case Jalr(rd, rs1, imm) => JumpPlain(s, rd, EvenTarget(s.regs(rs1), imm));
  }

  lemma ComputeKeeps(s: State, i: Instr, word: bv32)
    requires i.Register? || i.Immediate? || i.Lui? || i.Auipc?
    ensures OnlyRegisters(s, Exec(s, i, word))
  {
    hide OnlyRegisters, ExecRegister, ExecJump, ExecBranch, WriteRegister, Alu.ImmediateResult, Offset, EvenTarget,
         ExecLoad, ExecStore, ExecLoadReserved, ExecStoreConditional, ExecAmo, ExecCsr, TakeTrap, EcallCause, ExecMret, ExecSret, ExecSfence;
    match i
    case Register(op, rd, rs1, rs2) => RegisterPlain(s, op, rd, s.regs(rs1), s.regs(rs2));
    case Immediate(op, rd, rs1, imm) => WritePlain(s, rd, Alu.ImmediateResult(op, s.regs(rs1), imm));
    case Lui(rd, imm) => WritePlain(s, rd, imm);
    case Auipc(rd, imm) => WritePlain(s, rd, Offset(s.pc, imm));
  }

  lemma IdleKeeps(s: State, i: Instr, word: bv32)
    requires i.Fence? || i.Wfi? || i.Illegal?
    ensures OnlyRegisters(s, Exec(s, i, word))
  {
    hide OnlyRegisters, ExecRegister, ExecJump, ExecBranch, WriteRegister, Alu.ImmediateResult, Offset, EvenTarget,
         ExecLoad, ExecStore, ExecLoadReserved, ExecStoreConditional, ExecAmo, ExecCsr, TakeTrap, EcallCause, ExecMret, ExecSret, ExecSfence;
    IdlePlain(s);
  }

  /** Instructions that are neither memory nor system only touch registers and nextPc. */
  lemma PlainKeeps(s: State, i: Instr, word: bv32)
    requires !IsMemory(i) && !IsSystem(i)
    ensures OnlyRegisters(s, Exec(s, i, word))
  {
    hide OnlyRegisters, Exec;
    if i.Branch? || i.Jal? || i.Jalr? {
      JumpKeeps(s, i, word);
    } else if i.Fence? || i.Wfi? || i.Illegal? {
      IdleKeeps(s, i, word);
    } else {
      ComputeKeeps(s, i, word);
    }
  }
}
