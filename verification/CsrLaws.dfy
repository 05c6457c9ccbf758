/** What CSR instructions read and write, bit by bit: set and clear, the views, the masks. */
module CsrLaws {
  import opened Arithmetic
  import opened Computes
  import opened ExecFacts
  import opened Isa
  import opened Machine
  import opened Words
  import Csr
  import Faults

  // ----- who may access what ----------------------------------------------------------

  /** Bits 9 and 8 of a CSR number name the lowest mode that may access it; bits 11 and 10 both set
      make it read-only. */
  predicate Allowed(number: bv12, mode: Csr.Mode, isWrite: bool) {
    var a := number as bv32;
    && (mode == Csr.USER ==> !Has(a, 9) && !Has(a, 8))
    && (mode == Csr.SUPERVISOR ==> !Has(a, 9))
    && (mode == Csr.RESERVED ==> !(Has(a, 9) && Has(a, 8)))
    && !(isWrite && Has(a, 11) && Has(a, 10))
  }

  /** The access check is exactly this. */
  lemma AccessExactly(a: bv12, mode: Csr.Mode, isWrite: bool)
    ensures Csr.CanAccess(a, mode, isWrite) <==> Allowed(a, mode, isWrite)
  {
  }

  // ----- bits ------------------------------------------------------------------------

  /** SIE, MIE, SPIE, MPIE, SPP, MPP, FS and SUM. */
  predicate InMstatus(n: bv5) {
    n == 1 || n == 3 || n == 5 || n == 7 || n == 8 || n == 11 || n == 12 || n == 13 || n == 14 || n == 18
  }

  /** Those of them that sstatus shows: SIE, SPIE, SPP, FS and SUM. */
  predicate InSstatus(n: bv5) {
    n == 1 || n == 5 || n == 8 || n == 13 || n == 14 || n == 18
  }

  /** The pending bits software may write: SSIP, STIP and SEIP. */
  predicate InMip(n: bv5) {
    n == 1 || n == 5 || n == 9
  }

  lemma MaskBits(n: bv5)
    ensures Has(Csr.MSTATUS_MASK, n) <==> InMstatus(n)
    ensures Has(Csr.SSTATUS_MASK, n) <==> InSstatus(n)
    ensures Has(Csr.MIP_WRITABLE, n) <==> InMip(n)
  {
  }

  lemma MergeIs(current: bv32, value: bv32, mask: bv32)
    ensures Csr.Merge(current, value, mask) == Or(And(current, Not(mask)), And(value, mask))
  {
  }

  lemma MergeBit(current: bv32, value: bv32, mask: bv32, n: bv5)
    ensures Has(Csr.Merge(current, value, mask), n) <==> if Has(mask, n) then Has(value, n) else Has(current, n)
  {
    hide *;
    MergeIs(current, value, mask);
    OrHas(And(current, Not(mask)), And(value, mask), n);
    AndHas(current, Not(mask), n);
    NotHas(mask, n);
    AndHas(value, mask, n);
  }

  /** MPP of the value is the mode that does not exist. */
  predicate WantsReserved(value: bv32) {
    Has(value, 12) && !Has(value, 11)
  }

  lemma LegalBit(value: bv32, n: bv5)
    ensures Has(Csr.LegalMstatus(value), n) <==>
      InMstatus(n) && Has(value, n) && !(WantsReserved(value) && (n == 11 || n == 12))
  {
  }

  /** The bit a CSR instruction wants, from the bit read and the bit of its operand. */
  predicate Wanted(op: COp, was: bool, operand: bool) {
    match op
    case CSRRW | CSRRWI => operand
    case CSRRS | CSRRSI => was || operand
    case CSRRC | CSRRCI => was && !operand
  }

  lemma SetIs(current: bv32, operand: bv32)
    ensures CsrResult(CSRRS, current, operand) == Or(current, operand)
        && CsrResult(CSRRSI, current, operand) == Or(current, operand)
  {
  }

  lemma ClearIs(current: bv32, operand: bv32)
    ensures CsrResult(CSRRC, current, operand) == And(current, Not(operand))
    ensures CsrResult(CSRRCI, current, operand) == And(current, Not(operand))
  {
  }

  lemma PutIs(current: bv32, operand: bv32)
    ensures CsrResult(CSRRW, current, operand) == operand && CsrResult(CSRRWI, current, operand) == operand
  {
  }

  lemma ResultBit(op: COp, current: bv32, operand: bv32, n: bv5)
    ensures Has(CsrResult(op, current, operand), n) <==> Wanted(op, Has(current, n), Has(operand, n))
  {
    hide Has, CsrResult, Or, And, Not;
    PutIs(current, operand);
    SetIs(current, operand);
    ClearIs(current, operand);
    OrHas(current, operand, n);
    NotHas(operand, n);
    AndHas(current, Not(operand), n);
  }

  // ----- reading -----------------------------------------------------------------------

  /** Halves of the time, as numbers. */
  function TimeLow(mtime: bv64): nat {
    ToNat((mtime & 0xFFFF_FFFF) as bv32)
  }

  function TimeHigh(mtime: bv64): nat {
    ToNat((mtime >> 32) as bv32)
  }

  /** What a CSR shows. */
  ghost predicate Shows(f: Csr.File, mtime: bv64, a: bv12, value: bv32) {
    if a == 0xC00 || a == 0xC01 || a == 0xC02 then ToNat(value) == TimeLow(mtime)
    else if a == 0xC80 || a == 0xC81 || a == 0xC82 then ToNat(value) == TimeHigh(mtime)
    else if a == Csr.SSTATUS then forall n: bv5 :: Has(value, n) <==> InSstatus(n) && Has(f(Csr.MSTATUS), n)
    else if a == Csr.SIE then forall n: bv5 :: Has(value, n) <==> Has(f(Csr.MIDELEG), n) && Has(f(Csr.MIE), n)
    else if a == Csr.SIP then forall n: bv5 :: Has(value, n) <==> Has(f(Csr.MIDELEG), n) && Has(f(Csr.MIP), n)
    else value == f(a)
  }

  lemma ViewsAre(f: Csr.File, mtime: bv64)
    ensures Csr.Read(f, mtime, Csr.SSTATUS) == And(f(Csr.MSTATUS), Csr.SSTATUS_MASK)
    ensures Csr.Read(f, mtime, Csr.SIE) == And(f(Csr.MIE), f(Csr.MIDELEG))
    ensures Csr.Read(f, mtime, Csr.SIP) == And(f(Csr.MIP), f(Csr.MIDELEG))
  {
  }

  lemma SstatusShows(f: Csr.File, mtime: bv64, n: bv5)
    ensures Has(Csr.Read(f, mtime, Csr.SSTATUS), n) <==> InSstatus(n) && Has(f(Csr.MSTATUS), n)
  {
    MaskBits(n);
    ViewsAre(f, mtime);
    AndHas(f(Csr.MSTATUS), Csr.SSTATUS_MASK, n);
    hide Has, InSstatus, And, Csr.Read;
  }

  lemma SieShows(f: Csr.File, mtime: bv64, n: bv5)
    ensures Has(Csr.Read(f, mtime, Csr.SIE), n) <==> Has(f(Csr.MIDELEG), n) && Has(f(Csr.MIE), n)
  {
    ViewsAre(f, mtime);
    AndHas(f(Csr.MIE), f(Csr.MIDELEG), n);
    hide Has, And, Csr.Read;
  }

  lemma SipShows(f: Csr.File, mtime: bv64, n: bv5)
    ensures Has(Csr.Read(f, mtime, Csr.SIP), n) <==> Has(f(Csr.MIDELEG), n) && Has(f(Csr.MIP), n)
  {
    ViewsAre(f, mtime);
    AndHas(f(Csr.MIP), f(Csr.MIDELEG), n);
    hide Has, And, Csr.Read;
  }

  /** Every read shows what it should. */
  lemma ReadShows(f: Csr.File, mtime: bv64, a: bv12)
    ensures Shows(f, mtime, a, Csr.Read(f, mtime, a))
  {
    hide Has, InSstatus, ToNat;
    if a == Csr.SSTATUS {
      hide Csr.Read;
      forall n: bv5
        ensures Has(Csr.Read(f, mtime, a), n) <==> InSstatus(n) && Has(f(Csr.MSTATUS), n)
      {
        SstatusShows(f, mtime, n);
      }
    } else if a == Csr.SIE {
      hide Csr.Read;
      forall n: bv5
        ensures Has(Csr.Read(f, mtime, a), n) <==> Has(f(Csr.MIDELEG), n) && Has(f(Csr.MIE), n)
      {
        SieShows(f, mtime, n);
      }
    } else if a == Csr.SIP {
      hide Csr.Read;
      forall n: bv5
        ensures Has(Csr.Read(f, mtime, a), n) <==> Has(f(Csr.MIDELEG), n) && Has(f(Csr.MIP), n)
      {
        SipShows(f, mtime, n);
      }
    }
  }

  // ----- writing -----------------------------------------------------------------------

  predicate Wants(op: COp, was: bv32, operand: bv32, n: bv5) {
    Wanted(op, Has(was, n), Has(operand, n))
  }

  /** The register that holds what a CSR number names. */
  function Lands(a: bv12): bv12 {
    if a == Csr.SSTATUS then Csr.MSTATUS else if a == Csr.SIE then Csr.MIE else if a == Csr.SIP then Csr.MIP else a
  }

  /** From file `f` to file `g`, bit n of the register that `a` names: the wanted bit where the
      register has a writable one, else what it was. mstatus has bits that read zero, and keeps no
      MPP that is no mode; misa keeps everything. */
  predicate BitWritten(f: Csr.File, op: COp, a: bv12, was: bv32, operand: bv32, g: Csr.File, n: bv5) {
    var wanted := Wants(op, was, operand, n);
    if a == Csr.MSTATUS then
      Has(g(Csr.MSTATUS), n) <==>
        InMstatus(n) && wanted && !((n == 11 || n == 12) && Wants(op, was, operand, 12) && !Wants(op, was, operand, 11))
    else if a == Csr.SSTATUS then
      Has(g(Csr.MSTATUS), n) <==> if InSstatus(n) then wanted else Has(f(Csr.MSTATUS), n)
    else if a == Csr.SIE then
      Has(g(Csr.MIE), n) <==> if Has(f(Csr.MIDELEG), n) then wanted else Has(f(Csr.MIE), n)
    else if a == Csr.SIP then
      Has(g(Csr.MIP), n) <==> if Has(f(Csr.MIDELEG), n) && InMip(n) then wanted else Has(f(Csr.MIP), n)
    else if a == Csr.MIP then
      Has(g(Csr.MIP), n) <==> if InMip(n) then wanted else Has(f(Csr.MIP), n)
    else if a == Csr.MISA then
      Has(g(Csr.MISA), n) <==> Has(f(Csr.MISA), n)
    else
      Has(g(a), n) <==> wanted
  }

  /** The register file after a CSR instruction wrote: those bits, and no other register. */
  ghost predicate FileWritten(f: Csr.File, op: COp, a: bv12, was: bv32, operand: bv32, g: Csr.File) {
    && (forall x: bv12 :: x != Lands(a) ==> g(x) == f(x))
    && (forall n: bv5 :: BitWritten(f, op, a, was, operand, g, n))
  }

  /** What a write stores, without the arithmetic. */
  lemma WriteStores(f: Csr.File, a: bv12, value: bv32)
    requires !Csr.IsReadOnly(a)
    ensures forall x: bv12 :: x != Lands(a) ==> Csr.Write(f, a, value)(x) == f(x)
    ensures Csr.Write(f, a, value)(Lands(a)) ==
      if a == Csr.MISA then f(a)
      else if a == Csr.MSTATUS then Csr.LegalMstatus(value)
      else if a == Csr.SSTATUS then Csr.Merge(f(Csr.MSTATUS), value, Csr.SSTATUS_MASK)
      else if a == Csr.SIE then Csr.Merge(f(Csr.MIE), value, f(Csr.MIDELEG))
      else if a == Csr.SIP then Csr.Merge(f(Csr.MIP), value, And(f(Csr.MIDELEG), Csr.MIP_WRITABLE))
      else if a == Csr.MIP then Csr.Merge(f(Csr.MIP), value, Csr.MIP_WRITABLE)
      else value
  {
    hide Csr.LegalMstatus, Csr.Merge, Csr.IsReadOnly;
  }

  lemma NotReadOnly(a: bv12)
    requires IsSpecial(a)
    ensures !Csr.IsReadOnly(a)
  {
  }

  lemma MstatusWritten(f: Csr.File, op: COp, was: bv32, operand: bv32, g: Csr.File, n: bv5)
    requires g(Csr.MSTATUS) == Csr.LegalMstatus(CsrResult(op, was, operand))
    ensures BitWritten(f, op, Csr.MSTATUS, was, operand, g, n)
  {
    hide Has, Csr.LegalMstatus, CsrResult, Wanted, InMstatus;
    ResultBit(op, was, operand, n);
    ResultBit(op, was, operand, 11);
    ResultBit(op, was, operand, 12);
    LegalBit(CsrResult(op, was, operand), n);
  }

  lemma SstatusWritten(f: Csr.File, op: COp, was: bv32, operand: bv32, g: Csr.File, n: bv5)
    requires g(Csr.MSTATUS) == Csr.Merge(f(Csr.MSTATUS), CsrResult(op, was, operand), Csr.SSTATUS_MASK)
    ensures BitWritten(f, op, Csr.SSTATUS, was, operand, g, n)
  {
    hide Has, Csr.Merge, CsrResult, Wanted, InSstatus;
    MaskBits(n);
    ResultBit(op, was, operand, n);
    MergeBit(f(Csr.MSTATUS), CsrResult(op, was, operand), Csr.SSTATUS_MASK, n);
  }

  lemma SieWritten(f: Csr.File, op: COp, was: bv32, operand: bv32, g: Csr.File, n: bv5)
    requires g(Csr.MIE) == Csr.Merge(f(Csr.MIE), CsrResult(op, was, operand), f(Csr.MIDELEG))
    ensures BitWritten(f, op, Csr.SIE, was, operand, g, n)
  {
    hide Has, Csr.Merge, CsrResult, Wanted;
    ResultBit(op, was, operand, n);
    MergeBit(f(Csr.MIE), CsrResult(op, was, operand), f(Csr.MIDELEG), n);
  }

  lemma SipWritten(f: Csr.File, op: COp, was: bv32, operand: bv32, g: Csr.File, n: bv5)
    requires g(Csr.MIP) == Csr.Merge(f(Csr.MIP), CsrResult(op, was, operand), And(f(Csr.MIDELEG), Csr.MIP_WRITABLE))
    ensures BitWritten(f, op, Csr.SIP, was, operand, g, n)
  {
    hide Has, Csr.Merge, And, CsrResult, Wanted, InMip;
    MaskBits(n);
    ResultBit(op, was, operand, n);
    MergeBit(f(Csr.MIP), CsrResult(op, was, operand), And(f(Csr.MIDELEG), Csr.MIP_WRITABLE), n);
    AndHas(f(Csr.MIDELEG), Csr.MIP_WRITABLE, n);
  }

  lemma MipWritten(f: Csr.File, op: COp, was: bv32, operand: bv32, g: Csr.File, n: bv5)
    requires g(Csr.MIP) == Csr.Merge(f(Csr.MIP), CsrResult(op, was, operand), Csr.MIP_WRITABLE)
    ensures BitWritten(f, op, Csr.MIP, was, operand, g, n)
  {
    hide Has, Csr.Merge, CsrResult, Wanted, InMip;
    MaskBits(n);
    ResultBit(op, was, operand, n);
    MergeBit(f(Csr.MIP), CsrResult(op, was, operand), Csr.MIP_WRITABLE, n);
  }

  lemma SpecialWritten(f: Csr.File, op: COp, a: bv12, was: bv32, operand: bv32, n: bv5)
    requires IsSpecial(a)
    ensures BitWritten(f, op, a, was, operand, Csr.Write(f, a, CsrResult(op, was, operand)), n)
  {
    NotReadOnly(a);
    hide BitWritten, Csr.Write, Csr.LegalMstatus, Csr.Merge, And, CsrResult, Csr.IsReadOnly;
    WriteStores(f, a, CsrResult(op, was, operand));
    var g := Csr.Write(f, a, CsrResult(op, was, operand));
    if a == Csr.MSTATUS {
      MstatusWritten(f, op, was, operand, g, n);
    } else if a == Csr.SSTATUS {
      SstatusWritten(f, op, was, operand, g, n);
    } else if a == Csr.SIE {
      SieWritten(f, op, was, operand, g, n);
    } else if a == Csr.SIP {
      SipWritten(f, op, was, operand, g, n);
    } else {
      MipWritten(f, op, was, operand, g, n);
    }
  }

  predicate IsSpecial(a: bv12) {
    a == Csr.MSTATUS || a == Csr.SSTATUS || a == Csr.SIE || a == Csr.SIP || a == Csr.MIP
  }

  lemma PlainWritten(f: Csr.File, op: COp, a: bv12, was: bv32, operand: bv32, n: bv5)
    requires !IsSpecial(a) && !Csr.IsReadOnly(a)
    ensures BitWritten(f, op, a, was, operand, Csr.Write(f, a, CsrResult(op, was, operand)), n)
  {
    hide Has, Csr.Write, Csr.LegalMstatus, Csr.Merge, CsrResult, Wanted, Csr.IsReadOnly;
    WriteStores(f, a, CsrResult(op, was, operand));
    ResultBit(op, was, operand, n);
  }

  /** Every write of what an instruction computed leaves those bits, whatever the register. */
  lemma WritesFile(f: Csr.File, op: COp, a: bv12, was: bv32, operand: bv32)
    requires !Csr.IsReadOnly(a)
    ensures FileWritten(f, op, a, was, operand, Csr.Write(f, a, CsrResult(op, was, operand)))
  {
    hide BitWritten, Csr.Write, CsrResult, Csr.IsReadOnly, Csr.LegalMstatus, Csr.Merge;
    WriteStores(f, a, CsrResult(op, was, operand));
    forall n: bv5
      ensures BitWritten(f, op, a, was, operand, Csr.Write(f, a, CsrResult(op, was, operand)), n)
    {
      if IsSpecial(a) {
        SpecialWritten(f, op, a, was, operand, n);
      } else {
        PlainWritten(f, op, a, was, operand, n);
      }
    }
  }

  // ----- the instructions ----------------------------------------------------------------

  /** The operand: rs1, or its five-bit number zero-extended. */
  function Source(s: State, op: COp, rs1: bv5): bv32 {
    match op
    case CSRRW | CSRRS | CSRRC => s.regs(rs1)
    case CSRRWI | CSRRSI | CSRRCI => rs1 as bv32
  }

  /** CSRRW and CSRRWI always write; the others do not when the operand is x0 or 0. */
  predicate Writes(op: COp, rs1: bv5) {
    op.CSRRW? || op.CSRRWI? || rs1 != 0
  }

  lemma AllowedWrites(a: bv12, mode: Csr.Mode)
    requires Allowed(a, mode, true)
    ensures !Csr.IsReadOnly(a)
  {
  }

  lemma SourceIs(s: State, op: COp, rs1: bv5)
    ensures CsrOperand(s, op, rs1) == Source(s, op, rs1) && (WritesCsr(op, rs1) <==> Writes(op, rs1))
  {
  }

  /** The state a CSR instruction that is allowed leaves: rd holds what the CSR showed; if it writes,
      the bits of the register are as wanted, and a write to satp reaches the memory system. */
  ghost predicate CsrDone(s: State, op: COp, rd: bv5, rs1: bv5, a: bv12, was: bv32, t: State) {
    && Shows(s.csr, s.mem.dev.mtime, a, was)
    && OnlyPuts(s, rd, was, t)
    && t == s.(regs := t.regs, csr := t.csr, mem := t.mem)
    && (if Writes(op, rs1) then FileWritten(s.csr, op, a, was, Source(s, op, rs1), t.csr) else t.csr == s.csr)
    && t.mem == if Writes(op, rs1) && a == Csr.SATP then s.mem.(satp := t.csr(Csr.SATP)) else s.mem
  }

  lemma PutCsrIs(s: State, a: bv12, value: bv32)
    ensures var t, g := PutCsr(s, a, value), Csr.Write(s.csr, a, value);
      t == s.(csr := g, mem := if a == Csr.SATP then s.mem.(satp := g(Csr.SATP)) else s.mem)
  {
    hide Csr.Write;
  }

  lemma PutsAfter(s: State, u: State, rd: bv5, value: bv32)
    requires u.regs == s.regs
    ensures var t := WriteRegister(u, rd, value); OnlyPuts(s, rd, value, t) && t == u.(regs := t.regs)
  {
  }

  lemma WritingDone(s: State, op: COp, rd: bv5, rs1: bv5, a: bv12)
    requires Allowed(a, s.mode, true) && Writes(op, rs1)
    ensures var was := Csr.Read(s.csr, s.mem.dev.mtime, a);
      CsrDone(s, op, rd, rs1, a, was, WriteRegister(PutCsr(s, a, CsrResult(op, was, Source(s, op, rs1))), rd, was))
  {
    hide Shows, OnlyPuts, FileWritten, Allowed, Writes, Source, Csr.Read, Csr.Write, CsrResult, PutCsr, WriteRegister,
         Csr.IsReadOnly;
    var was := Csr.Read(s.csr, s.mem.dev.mtime, a);
    var value := CsrResult(op, was, Source(s, op, rs1));
    ReadShows(s.csr, s.mem.dev.mtime, a);
    AllowedWrites(a, s.mode);
    WritesFile(s.csr, op, a, was, Source(s, op, rs1));
    PutCsrIs(s, a, value);
    PutsAfter(s, PutCsr(s, a, value), rd, was);
  }

  lemma ReadingDone(s: State, op: COp, rd: bv5, rs1: bv5, a: bv12)
    requires !Writes(op, rs1)
    ensures var was := Csr.Read(s.csr, s.mem.dev.mtime, a); CsrDone(s, op, rd, rs1, a, was, WriteRegister(s, rd, was))
  {
    hide Shows, OnlyPuts, FileWritten, Writes, Source, Csr.Read, WriteRegister;
    ReadShows(s.csr, s.mem.dev.mtime, a);
    PutsAfter(s, s, rd, Csr.Read(s.csr, s.mem.dev.mtime, a));
  }

  /** Every CSR instruction, on every register, in every mode: without the right to it, an illegal
      instruction trap; else what CsrDone says. */
  lemma CsrInstruction(s: State, op: COp, rd: bv5, rs1: bv5, a: bv12, word: bv32) returns (was: bv32)
    ensures var o := Exec(s, CsrAccess(op, rd, rs1, a), word);
      o.Next? && if Allowed(a, s.mode, Writes(op, rs1)) then CsrDone(s, op, rd, rs1, a, was, o.state)
                 else Faults.Reports(s, o.state, 2, word) && o.state.regs == s.regs && o.state.mem == s.mem
  {
    hide Exec, CsrDone, Allowed, Writes, Source, Csr.CanAccess, Csr.Read, CsrResult, PutCsr, WriteRegister, TakeTrap,
         Faults.Reports,
         CsrOperand, WritesCsr;
    was := Csr.Read(s.csr, s.mem.dev.mtime, a);
    ExecOfCsr(s, op, rd, rs1, a, word);
    SourceIs(s, op, rs1);
    AccessExactly(a, s.mode, Writes(op, rs1));
    Faults.TrapReports(s, ILLEGAL_INSTRUCTION, word);
    if Writes(op, rs1) {
      if Allowed(a, s.mode, true) {
        WritingDone(s, op, rd, rs1, a);
      }
    } else {
      ReadingDone(s, op, rd, rs1, a);
    }
  }
}
