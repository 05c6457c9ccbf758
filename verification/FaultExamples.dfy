/** Concrete user-mode states in which a fault, or its absence, is not what the manual asks for. */
module FaultExamples {
  import opened Bus
  import opened Isa
  import opened Machine
  import opened Words
  import Csr
  import ExecFacts
  import Faults
  import Interrupts
  import Mmio
  import RamFacts
  import SdCard

  /** A root table at 0x1000 with one entry, for virtual 0 to 0x003F_FFFF. */
  const SATP: bv32 := 0x8000_0001
  const ROOT: bv32 := 0x0000_1000

  /** A superpage at physical 0x0040_0000 for user code: readable and executable; readable only;
      executable only. */
  const READ_EXECUTE: bv32 := 0x0010_005B
  const READ_ONLY: bv32 := 0x0010_0053
  const EXECUTE_ONLY: bv32 := 0x0010_0059

  const USER_HART: Hart := Hart(Csr.USER, 0)

  function WithLeaf(ram: Ram, leaf: bv32): Mem {
    var spi := SdCard.Spi(0, 0, 0, 0, 0, 0, 0, false, [], false);
    Mem(SetWord(ram, ROOT, leaf), Mmio.Device(0, 0, 0, [0, 0, 0, 0, 0, 0, 0, 0], false, spi), SATP)
  }

  predicate Low(v: bv32) {
    v & 0xFFC0_0000 == 0
  }

  lemma LowRoot(v: bv32)
    requires Low(v)
    ensures Pte1Address(SATP, v) == ROOT
  {
  }

  lemma RootIs(ram: Ram, leaf: bv32, v: bv32)
    requires Low(v)
    ensures WithLeaf(ram, leaf).satp == SATP
    ensures ReadPhysical(WithLeaf(ram, leaf), Pte1Address(SATP, v)) == (leaf, WithLeaf(ram, leaf))
  {
    assert !Mmio.Readable(ROOT);
    LowRoot(v);
    RamFacts.ReadBack(ram, ROOT, leaf);
    hide Low, SetWord, GetWord, Pte1Address, Mmio.Read, Mmio.Readable;
    Mmio.Claims(WithLeaf(ram, leaf).dev, ROOT, 0);
  }

  /** Below 4 MiB the one entry decides. */
  lemma LeafTranslates(ram: Ram, leaf: bv32, v: bv32, kind: AccessType)
    requires Low(v) && leaf & PTE_V != 0 && IsLeaf(leaf)
    ensures var t := Translate(WithLeaf(ram, leaf), USER_HART, v, kind);
      if SuperpageFaults(Csr.USER, 0, leaf, kind) then t.PageFault?
      else t == Done(Compose(((leaf >> 10) & 0x3F_FFFF) | ((v >> 12) & 0x3FF), v), WithLeaf(ram, leaf))
  {
    assert !IsBare(SATP, USER_HART, kind) && EffectiveMode(USER_HART, kind) == Csr.USER;
    hide Low, WithLeaf, IsBare, EffectiveMode, ReadPhysical, SuperpageFaults, PageFaults, Pte1Address, Pte0Address, Compose, IsLeaf;
    RootIs(ram, leaf, v);
  }

  // ----- fetches across pages ------------------------------------------------------

  const LAST_HALF: bv32 := 0x0000_2FFE

  lemma LoadsByte(v: bv32, p: bv32)
    requires Low(v) && Compose(((READ_ONLY >> 10) & 0x3F_FFFF) | ((v >> 12) & 0x3FF), v) == p && !Mmio.Readable(p)
    ensures var m := WithLeaf(Zeroes(), READ_ONLY); Read8(m, USER_HART, v) == Done(m.ram(p), m)
  {
    assert !SuperpageFaults(Csr.USER, 0, READ_ONLY, AccessType.Load) && READ_ONLY & PTE_V != 0 && IsLeaf(READ_ONLY);
    hide Low, SuperpageFaults, IsLeaf, Compose, Mmio.Read, Mmio.Readable, WithLeaf, Translate;
    LeafTranslates(Zeroes(), READ_ONLY, v, AccessType.Load);
    Mmio.Claims(WithLeaf(Zeroes(), READ_ONLY).dev, p, 0);
  }

  lemma LastHalfStraddles()
    ensures Straddles(LAST_HALF, 4)
  {
  }

  lemma FourBytes()
    ensures var m := WithLeaf(Zeroes(), READ_ONLY);
      Read8(m, USER_HART, LAST_HALF) == Done(m.ram(0x0040_2FFE), m) && Read8(m, USER_HART, LAST_HALF + 1) == Done(m.ram(0x0040_2FFF), m)
      && Read8(m, USER_HART, LAST_HALF + 2) == Done(m.ram(0x0040_3000), m) && Read8(m, USER_HART, LAST_HALF + 3) == Done(m.ram(0x0040_3001), m)
  {
    hide WithLeaf, Read8;
    LoadsByte(LAST_HALF, 0x0040_2FFE);
    LoadsByte(LAST_HALF + 1, 0x0040_2FFF);
    LoadsByte(LAST_HALF + 2, 0x0040_3000);
    LoadsByte(LAST_HALF + 3, 0x0040_3001);
  }

  lemma Denied(leaf: bv32, kind: AccessType)
    requires (leaf == READ_ONLY && kind == InstructionFetch) || (leaf == EXECUTE_ONLY && kind == AccessType.Load)
    ensures Translate(WithLeaf(Zeroes(), leaf), USER_HART, LAST_HALF, kind).PageFault?
  {
    assert SuperpageFaults(Csr.USER, 0, READ_ONLY, InstructionFetch) && READ_ONLY & PTE_V != 0 && IsLeaf(READ_ONLY);
    assert SuperpageFaults(Csr.USER, 0, EXECUTE_ONLY, AccessType.Load) && EXECUTE_ONLY & PTE_V != 0 && IsLeaf(EXECUTE_ONLY);
    assert Low(LAST_HALF);
    hide *;
    LeafTranslates(Zeroes(), leaf, LAST_HALF, kind);
  }

  /** On pages that may be read and not executed, a fetch that crosses from one to the next
      completes, although no byte of it may be fetched. */
  lemma FetchWithoutExecute()
    ensures var m := WithLeaf(Zeroes(), READ_ONLY);
      Translate(m, USER_HART, LAST_HALF, InstructionFetch).PageFault? && Read32(m, USER_HART, LAST_HALF, true).Done?
  {
    hide WithLeaf, Translate, Read8, FromBytes, Straddles, ReadPhysical;
    Denied(READ_ONLY, InstructionFetch);
    FourBytes();
    LastHalfStraddles();
  }

  /** On pages that may be executed and not read it faults, as a load, although it may be fetched. */
  lemma ExecuteOnlyFetchFaults()
    ensures var m := WithLeaf(Zeroes(), EXECUTE_ONLY);
      Translate(m, USER_HART, LAST_HALF, InstructionFetch).Done?
      && Read32(m, USER_HART, LAST_HALF, true).PageFault? && Read32(m, USER_HART, LAST_HALF, true).kind == AccessType.Load
  {
    assert !SuperpageFaults(Csr.USER, 0, EXECUTE_ONLY, InstructionFetch) && EXECUTE_ONLY & PTE_V != 0 && IsLeaf(EXECUTE_ONLY);
    assert Low(LAST_HALF);
    hide WithLeaf, Translate, FromBytes, Straddles, ReadPhysical, SuperpageFaults, IsLeaf, Low, Compose, Mmio.Read;
    LeafTranslates(Zeroes(), EXECUTE_ONLY, LAST_HALF, InstructionFetch);
    Denied(EXECUTE_ONLY, AccessType.Load);
    LastHalfStraddles();
    TranslateKind(WithLeaf(Zeroes(), EXECUTE_ONLY));
  }

  lemma TranslateKind(m: Mem)
    ensures var t := Translate(m, USER_HART, LAST_HALF, AccessType.Load); t.PageFault? ==> t.kind == AccessType.Load
  {
    hide IsBare, Frame, EffectiveMode, Compose;
  }

  // ----- an AMO on an unmapped page ---------------------------------------------------

  /** amoadd.w x6, x7, (x5) */
  const AMOADD_WORD: bv32 := 0x0072_A32F
  const PC: bv32 := 0x0000_2000
  const PHYSICAL_PC: bv32 := 0x0040_2000
  const UNMAPPED: bv32 := 0x0040_0000

  function AmoState(): State {
    State((r: bv5) => if r == 5 then UNMAPPED else 0, PC, 0, Csr.USER, (a: bv12) => 0,
          WithLeaf(SetWord(Zeroes(), PHYSICAL_PC, AMOADD_WORD), READ_EXECUTE), false, 0)
  }

  lemma WordDecodes()
    ensures Expand(AMOADD_WORD) == AMOADD_WORD && Decode(AMOADD_WORD) == Amo(AMOADD, 6, 5, 7)
  {
  }

  lemma WordStays()
    ensures GetWord(AmoState().mem.ram, PHYSICAL_PC) == AMOADD_WORD
  {
    RamFacts.ReadBack(Zeroes(), PHYSICAL_PC, AMOADD_WORD);
    OtherWordStays(SetWord(Zeroes(), PHYSICAL_PC, AMOADD_WORD));
    hide GetWord, SetWord;
  }

  lemma OtherWordStays(ram: Ram)
    ensures GetWord(SetWord(ram, ROOT, READ_EXECUTE), PHYSICAL_PC) == GetWord(ram, PHYSICAL_PC)
  {
    hide ByteOf, FromBytes;
  }

  lemma FetchesWord()
    ensures Read32(AmoState().mem, USER_HART, PC, true) == Done(AMOADD_WORD, AmoState().mem)
  {
    assert !SuperpageFaults(Csr.USER, 0, READ_EXECUTE, InstructionFetch) && READ_EXECUTE & PTE_V != 0 && IsLeaf(READ_EXECUTE);
    assert Low(PC) && !Straddles(PC, 4) && !Mmio.Readable(PHYSICAL_PC);
    assert Compose(((READ_EXECUTE >> 10) & 0x3F_FFFF) | ((PC >> 12) & 0x3FF), PC) == PHYSICAL_PC;
    WordStays();
    hide Low, SuperpageFaults, IsLeaf, Compose, Mmio.Read, Mmio.Readable, WithLeaf, Translate, Straddles, GetWord, SetWord;
    LeafTranslates(SetWord(Zeroes(), PHYSICAL_PC, AMOADD_WORD), READ_EXECUTE, PC, InstructionFetch);
    Mmio.Claims(AmoState().mem.dev, PHYSICAL_PC, 0);
  }

  lemma EmptyEntry()
    ensures GetWord(AmoState().mem.ram, ROOT + 4) == 0
  {
    assert FromBytes(0, 0, 0, 0) == 0;
    hide ByteOf, FromBytes;
  }

  lemma UnmappedFaults()
    ensures Translate(AmoState().mem, USER_HART, UNMAPPED, AccessType.Load).PageFault?
  {
    assert Pte1Address(SATP, UNMAPPED) == ROOT + 4 && !Mmio.Readable(ROOT + 4) && (0 as bv32) & PTE_V == 0;
    EmptyEntry();
    hide Mmio.Read, Mmio.Readable, GetWord, SetWord, Pte1Address, PageFaults, SuperpageFaults, Pte0Address, Compose;
    Mmio.Claims(AmoState().mem.dev, ROOT + 4, 0);
  }

  lemma AmoStateIs()
    ensures var s := AmoState();
      HartOf(s) == USER_HART && s.pc == PC && s.regs(5) == UNMAPPED && !s.mem.dev.spi.lost && (forall cause: bv32 :: !Delegated(s, cause))
  {
    hide CauseBit, SetWord;
  }

  lemma AmoExecutes()
    ensures var s1 := AmoState().(nextPc := PC + 4);
      Interrupts.Executing(AmoState()) == Mmio.Some((s1, Amo(AMOADD, 6, 5, 7), AMOADD_WORD))
  {
    WordDecodes();
    FetchesWord();
    AmoStateIs();
    assert FallThrough(PC, AMOADD_WORD) == PC + 4;
    hide AmoState, Read32, Expand, Decode, HartOf, FallThrough;
  }

  lemma AmoFaults(word: bv32)
    ensures var s1 := AmoState().(nextPc := PC + 4); Exec(s1, Amo(AMOADD, 6, 5, 7), word).Fault?
  {
    assert !Straddles(UNMAPPED, 4);
    hide AmoState, Read32, HartOf, Straddles, Translate, ExecAmo, Exec;
    UnmappedFaults();
    AmoStateIs();
    var s1 := AmoState().(nextPc := PC + 4);
    Faults.ReadFaults(s1.mem, USER_HART, UNMAPPED);
    SameHart();
    ReadFaultIsFault(s1, word);
  }

  lemma SameHart()
    ensures HartOf(AmoState().(nextPc := PC + 4)) == HartOf(AmoState())
  {
    hide AmoState;
  }

  lemma ReadFaultIsFault(s: State, word: bv32)
    requires Read32(s.mem, HartOf(s), s.regs(5), false).PageFault?
    ensures Exec(s, Amo(AMOADD, 6, 5, 7), word).Fault?
  {
    hide Read32, HartOf, Exec, StoreThenWrite, NotifyStore;
    ExecFacts.ExecOfAmo(s, AMOADD, 6, 5, 7, word);
  }

  /** An AMO on an unmapped page ends its turn in a load page fault, cause 13; the manual has a
      store/AMO page fault, cause 15. */
  lemma AmoFaultsAsLoad()
    ensures Step(AmoState()).Running?
    ensures var t := Step(AmoState()).state;
      t.mode == Csr.MACHINE && t.csr(Csr.MCAUSE) == 13 && t.csr(Csr.MTVAL) == UNMAPPED && t.csr(Csr.MEPC) == PC
  {
    assert !Straddles(UNMAPPED, 4);
    AmoStateIs();
    hide AmoState, Step, HartOf, Straddles, Translate, Exec, Interrupts.Executing, Delegated;
    AmoExecutes();
    AmoFaults(AMOADD_WORD);
    UnmappedFaults();
    SameHart();
    Faults.AtomicFaultCause(AmoState(), AmoState().(nextPc := PC + 4), Amo(AMOADD, 6, 5, 7), AMOADD_WORD);
  }
}
