/** What the instructions that touch only registers and the pc do to the whole state, in numbers. */
module Computes {
  import opened Arithmetic
  import opened Isa
  import opened Machine
  import opened Numbers
  import opened Words
  import Alu
  import MulDivLaws
  import Ranges

  /** Register rd of `t` holds a value of which `value` is told, no other register has moved, and
      x0 has not. */
  ghost predicate OnlyPuts(s: State, rd: bv5, value: bv32, t: State) {
    && (rd != 0 ==> t.regs(rd) == value)
    && (forall r: bv5 :: r != rd || r == 0 ==> t.regs(r) == s.regs(r))
  }

  /** Nothing but the registers has changed. */
  ghost predicate SameBut(s: State, t: State) {
    t == s.(regs := t.regs)
  }

  /** The address `base` plus a signed offset, modulo 2^32. */
  ghost predicate IsAt(base: bv32, offset: bv32, r: bv32) {
    ToNat(r) == (ToNat(base) + ToInt(offset)) % TWO_32
  }

  lemma Puts(s: State, rd: bv5, value: bv32)
    ensures OnlyPuts(s, rd, value, WriteRegister(s, rd, value)) && SameBut(s, WriteRegister(s, rd, value))
  {
  }

  lemma SignedOffset(x: nat, n: nat, i: int)
    requires i == n || i == n - TWO_32
    ensures (x + n) % TWO_32 == (x + i) % TWO_32
  {
    if i != n {
      MulDivLaws.ModAdd(x + i, 1);
    }
  }

  lemma OffsetIs(base: bv32, offset: bv32)
    ensures IsAt(base, offset, Offset(base, offset))
  {
    hide ToNat, ToInt, Ranges.Sign;
    SumIs(base, offset);
    Ranges.ToIntIs(offset);
    SignedOffset(ToNat(base), ToNat(offset), ToInt(offset));
  }

  lemma EvenPart(x: bv32)
    ensures x & !1 == x - LowBit(x) && (LowBit(x) == 0 || LowBit(x) == 1)
  {
  }

  lemma LowBitParity(x: bv32)
    ensures ToNat(LowBit(x)) == ToNat(x) % 2
  {
    hide *;
    HalfOf(x);
    LowBitIs(x);
    var h := Half(x);
    MulDivLaws.SignIs(h);
    PlusIs(h, h);
    PlusIs(Plus(h, h), LowBit(x));
    ParityArithmetic(ToNat(h), ToNat(LowBit(x)), ToNat(Plus(h, h)), ToNat(x));
  }

  lemma ParityArithmetic(h: nat, l: nat, d: nat, x: nat)
    requires h < TWO_31 && l <= 1 && d == (h + h) % TWO_32 && x == (d + l) % TWO_32
    ensures l == x % 2
  {
  }

  function Even(x: bv32): bv32 {
    x & !1
  }

  lemma EvenIs(x: bv32)
    ensures ToNat(Even(x)) == ToNat(x) - ToNat(x) % 2
  {
    EvenPart(x);
    hide ToNat, LowBit;
    LowBitParity(x);
    DifferenceIs(x, LowBit(x));
    ToNatBound(x);
  }

  // ----- dispatch ------------------------------------------------------------------

  lemma OfRegister(s: State, op: ROp, rd: bv5, rs1: bv5, rs2: bv5, word: bv32)
    ensures Exec(s, Register(op, rd, rs1, rs2), word) == ExecRegister(s, op, rd, s.regs(rs1), s.regs(rs2))
  {
    hide Offset, WriteRegister, TakeTrap, ExecRegister, ExecBranch, ExecJump, Alu.ImmediateResult, EvenTarget,
         EcallCause, ExecMret, ExecSret, ExecSfence,
         ExecLoad, ExecStore, ExecLoadReserved, ExecStoreConditional, ExecAmo, ExecCsr;
  }

  lemma OfImmediate(s: State, op: IOp, rd: bv5, rs1: bv5, imm: bv32, word: bv32)
    ensures Exec(s, Immediate(op, rd, rs1, imm), word)
        == Next(WriteRegister(s, rd, Alu.ImmediateResult(op, s.regs(rs1), imm)))
  {
    hide Offset, WriteRegister, TakeTrap, ExecRegister, ExecBranch, ExecJump, Alu.ImmediateResult, EvenTarget,
         EcallCause, ExecMret, ExecSret, ExecSfence,
         ExecLoad, ExecStore, ExecLoadReserved, ExecStoreConditional, ExecAmo, ExecCsr;
  }

  lemma OfBranch(s: State, op: BOp, rs1: bv5, rs2: bv5, imm: bv32, word: bv32)
    ensures Exec(s, Branch(op, rs1, rs2, imm), word) == Next(ExecBranch(s, op, s.regs(rs1), s.regs(rs2), imm))
  {
    hide Offset, WriteRegister, TakeTrap, ExecRegister, ExecBranch, ExecJump, Alu.ImmediateResult, EvenTarget,
         EcallCause, ExecMret, ExecSret, ExecSfence,
         ExecLoad, ExecStore, ExecLoadReserved, ExecStoreConditional, ExecAmo, ExecCsr;
  }

  lemma OfJal(s: State, rd: bv5, imm: bv32, word: bv32)
    ensures Exec(s, Jal(rd, imm), word) == Next(ExecJump(s, rd, Offset(s.pc, imm)))
  {
    hide Offset, WriteRegister, TakeTrap, ExecRegister, ExecBranch, ExecJump, Alu.ImmediateResult, EvenTarget,
         EcallCause, ExecMret, ExecSret, ExecSfence,
         ExecLoad, ExecStore, ExecLoadReserved, ExecStoreConditional, ExecAmo, ExecCsr;
  }

  lemma OfJalr(s: State, rd: bv5, rs1: bv5, imm: bv32, word: bv32)
    ensures Exec(s, Jalr(rd, rs1, imm), word) == Next(ExecJump(s, rd, EvenTarget(s.regs(rs1), imm)))
  {
    hide Offset, WriteRegister, TakeTrap, ExecRegister, ExecBranch, ExecJump, Alu.ImmediateResult, EvenTarget,
         EcallCause, ExecMret, ExecSret, ExecSfence,
         ExecLoad, ExecStore, ExecLoadReserved, ExecStoreConditional, ExecAmo, ExecCsr;
  }

  lemma OfLui(s: State, rd: bv5, imm: bv32, word: bv32)
    ensures Exec(s, Lui(rd, imm), word) == Next(WriteRegister(s, rd, imm))
  {
    hide Offset, WriteRegister, TakeTrap, ExecRegister, ExecBranch, ExecJump, Alu.ImmediateResult, EvenTarget,
         EcallCause, ExecMret, ExecSret, ExecSfence,
         ExecLoad, ExecStore, ExecLoadReserved, ExecStoreConditional, ExecAmo, ExecCsr;
  }

  lemma OfAuipc(s: State, rd: bv5, imm: bv32, word: bv32)
    ensures Exec(s, Auipc(rd, imm), word) == Next(WriteRegister(s, rd, Offset(s.pc, imm)))
  {
    hide Offset, WriteRegister, TakeTrap, ExecRegister, ExecBranch, ExecJump, Alu.ImmediateResult, EvenTarget,
         EcallCause, ExecMret, ExecSret, ExecSfence,
         ExecLoad, ExecStore, ExecLoadReserved, ExecStoreConditional, ExecAmo, ExecCsr;
  }

  lemma OfIdle(s: State, word: bv32)
    ensures Exec(s, Fence, word) == Next(s) && Exec(s, Wfi, word) == Next(s) && Exec(s, Illegal, word) == Rejected(s)
  {
    hide Offset, WriteRegister, TakeTrap, ExecRegister, ExecBranch, ExecJump, Alu.ImmediateResult, EvenTarget,
         EcallCause, ExecMret, ExecSret, ExecSfence,
         ExecLoad, ExecStore, ExecLoadReserved, ExecStoreConditional, ExecAmo, ExecCsr;
  }

  // ----- results -----------------------------------------------------------------------

  /** The shift amount in rs2 has bit 5 set. */
  predicate ShiftsTooFar(op: ROp, b: bv32) {
    (op.SLL? || op.SRL? || op.SRA?) && Has(b, 5)
  }

  lemma TooFar(op: ROp, b: bv32)
    ensures Alu.Defined(op, b) <==> !ShiftsTooFar(op, b)
  {
  }

  /** A register instruction puts the meaning of its operation on rs1 and rs2, in that order, in rd,
      unless it is a shift by 32 or more, which has none. */
  lemma RegisterInstruction(s: State, op: ROp, rd: bv5, rs1: bv5, rs2: bv5, word: bv32) returns (value: bv32)
    ensures RegisterMeans(op, s.regs(rs1), s.regs(rs2), value)
    ensures var o := Exec(s, Register(op, rd, rs1, rs2), word);
      if ShiftsTooFar(op, s.regs(rs2)) then o == Undefined
      else o.Next? && SameBut(s, o.state) && OnlyPuts(s, rd, value, o.state)
  {
    hide Exec, RegisterMeans, Alu.RegisterResult, Alu.Defined, ShiftsTooFar, WriteRegister, OnlyPuts;
    value := Alu.RegisterResult(op, s.regs(rs1), s.regs(rs2));
    OfRegister(s, op, rd, rs1, rs2, word);
    TooFar(op, s.regs(rs2));
    RegisterOperations(op, s.regs(rs1), s.regs(rs2));
    Puts(s, rd, value);
  }

  /** An immediate instruction puts the meaning of its operation on rs1 and the immediate in rd. */
  lemma ImmediateInstruction(s: State, op: IOp, rd: bv5, rs1: bv5, imm: bv32, word: bv32) returns (value: bv32)
    ensures ImmediateMeans(op, s.regs(rs1), imm, value)
    ensures var o := Exec(s, Immediate(op, rd, rs1, imm), word);
      o.Next? && SameBut(s, o.state) && OnlyPuts(s, rd, value, o.state)
  {
    hide Exec, ImmediateMeans, Alu.ImmediateResult, WriteRegister, OnlyPuts;
    value := Alu.ImmediateResult(op, s.regs(rs1), imm);
    OfImmediate(s, op, rd, rs1, imm, word);
    ImmediateOperations(op, s.regs(rs1), imm);
    Puts(s, rd, value);
  }

  /** LUI puts its immediate in rd, AUIPC the pc plus its immediate. */
  lemma UpperInstruction(s: State, rd: bv5, imm: bv32, word: bv32) returns (value: bv32)
    ensures var o := Exec(s, Lui(rd, imm), word); o.Next? && SameBut(s, o.state) && OnlyPuts(s, rd, imm, o.state)
    ensures IsAt(s.pc, imm, value)
    ensures var o := Exec(s, Auipc(rd, imm), word); o.Next? && SameBut(s, o.state) && OnlyPuts(s, rd, value, o.state)
  {
    hide Exec, Offset, WriteRegister, OnlyPuts, IsAt;
    value := Offset(s.pc, imm);
    OfLui(s, rd, imm, word);
    OfAuipc(s, rd, imm, word);
    OffsetIs(s.pc, imm);
    Puts(s, rd, imm);
    Puts(s, rd, value);
  }

  /** A branch goes to pc plus its offset exactly when its comparison of rs1 with rs2 holds, and
      otherwise falls through; it changes nothing else. */
  lemma BranchInstruction(s: State, op: BOp, rs1: bv5, rs2: bv5, imm: bv32, word: bv32)
    ensures var o := Exec(s, Branch(op, rs1, rs2, imm), word);
      o.Next? && o.state == s.(nextPc := o.state.nextPc)
      && if BranchMeans(op, s.regs(rs1), s.regs(rs2)) then IsAt(s.pc, imm, o.state.nextPc) else o.state.nextPc == s.nextPc
  {
    hide Exec, Offset, Alu.BranchTaken, BranchMeans, IsAt;
    OfBranch(s, op, rs1, rs2, imm, word);
    BranchConditions(op, s.regs(rs1), s.regs(rs2));
    OffsetIs(s.pc, imm);
  }

  /** JAL links the fall-through address and goes to pc plus its offset. */
  lemma JalInstruction(s: State, rd: bv5, imm: bv32, word: bv32)
    ensures var o := Exec(s, Jal(rd, imm), word);
      o.Next? && o.state == s.(regs := o.state.regs, nextPc := o.state.nextPc)
      && OnlyPuts(s, rd, s.nextPc, o.state) && IsAt(s.pc, imm, o.state.nextPc)
  {
    hide Exec, Offset, WriteRegister, OnlyPuts, IsAt;
    OfJal(s, rd, imm, word);
    OffsetIs(s.pc, imm);
    Puts(s, rd, s.nextPc);
    PutsMoved(s, rd, s.nextPc, Offset(s.pc, imm));
  }

  lemma PutsMoved(s: State, rd: bv5, value: bv32, target: bv32)
    ensures OnlyPuts(s, rd, value, WriteRegister(s, rd, value).(nextPc := target))
  {
  }

  lemma EvenTargetIsEven(base: bv32, imm: bv32)
    ensures EvenTarget(base, imm) == Even(Offset(base, imm))
  {
    hide Offset;
  }

  lemma EvenTargetIs(base: bv32, imm: bv32)
    ensures var target := (ToNat(base) + ToInt(imm)) % TWO_32; ToNat(EvenTarget(base, imm)) == target - target % 2
  {
    hide EvenTarget, Even, Offset, ToNat, ToInt;
    OffsetIs(base, imm);
    EvenIs(Offset(base, imm));
    EvenTargetIsEven(base, imm);
  }

  /** JALR goes to rs1, as it was before the link, plus its offset, less the lowest bit. */
  lemma JalrInstruction(s: State, rd: bv5, rs1: bv5, imm: bv32, word: bv32)
    ensures var o, target := Exec(s, Jalr(rd, rs1, imm), word), (ToNat(s.regs(rs1)) + ToInt(imm)) % TWO_32;
      o.Next? && o.state == s.(regs := o.state.regs, nextPc := o.state.nextPc)
      && OnlyPuts(s, rd, s.nextPc, o.state) && ToNat(o.state.nextPc) == target - target % 2
  {
    hide Exec, EvenTarget, WriteRegister, OnlyPuts, ToNat, ToInt;
    OfJalr(s, rd, rs1, imm, word);
    EvenTargetIs(s.regs(rs1), imm);
    Puts(s, rd, s.nextPc);
    PutsMoved(s, rd, s.nextPc, EvenTarget(s.regs(rs1), imm));
  }

  /** FENCE and WFI do nothing; a word that is no instruction is rejected with nothing done. */
  lemma IdleInstructions(s: State, word: bv32)
    ensures Exec(s, Fence, word) == Next(s) && Exec(s, Wfi, word) == Next(s) && Exec(s, Illegal, word) == Rejected(s)
  {
    hide Exec;
    OfIdle(s, word);
  }
}
