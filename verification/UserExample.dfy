/** A user-mode state the integrity results speak of: page tables out of reach, and a page within. */
module UserExample {
  import opened Bus
  import opened Integrity
  import opened LrScAlias
  import opened Machine
  import opened Words
  import Csr
  import Mmio
  import RamFacts
  import Sv32Manual
  import Sv32Pages
  import UserMode

  const ROOT: bv32 := 0x1000

  predicate InTable(p: bv32) {
    p & 0xFFFF_F003 == ROOT
  }

  lemma RootEntryIsInTable(v: bv32)
    ensures InTable(Pte1Address(ROOT_SATP, v))
    ensures RootOffset(v) == 0 ==> Pte1Address(ROOT_SATP, v) == ROOT
    ensures RootOffset(v) != 0 ==> Pte1Address(ROOT_SATP, v) != ROOT
  {
  }

  /** An aligned word of the table other than its first is disjoint from the first. */
  lemma OtherEntries(p: bv32)
    requires InTable(p) && p != ROOT
    ensures Apart(p) && Apart(p + 1) && Apart(p + 2) && Apart(p + 3)
  {
  }

  predicate Apart(x: bv32) {
    x != ROOT && x != ROOT + 1 && x != ROOT + 2 && x != ROOT + 3
  }

  lemma OtherByte(x: bv32)
    requires Apart(x)
    ensures ExampleMem().ram(x) == 0
  {
    RamFacts.WordElsewhere(Zeroes(), ROOT, LEAF, x);
  }

  lemma ZeroBytes()
    ensures FromBytes(0, 0, 0, 0) == 0
  {
  }

  lemma OtherWord(p: bv32)
    requires InTable(p) && p != ROOT
    ensures GetWord(ExampleMem().ram, p) == 0
  {
    hide FromBytes, ExampleMem, InTable, Apart;
    OtherEntries(p);
    OtherByte(p);
    OtherByte(p + 1);
    OtherByte(p + 2);
    OtherByte(p + 3);
    ZeroBytes();
  }

  lemma FirstWord()
    ensures GetWord(ExampleMem().ram, ROOT) == LEAF
  {
    hide GetWord, SetWord;
    RamFacts.ReadBack(Zeroes(), ROOT, LEAF);
  }

  /** Root entry 0 is the superpage, every other one is invalid. */
  lemma RootWords(v: bv32)
    ensures RootWord(ExampleMem(), v) == if RootOffset(v) == 0 then LEAF else 0
  {
    hide GetWord, RootOffset, InTable, Pte1Address;
    RootEntryIsInTable(v);
    FirstWord();
    if RootOffset(v) != 0 {
      OtherWord(Pte1Address(ROOT_SATP, v));
    }
  }

  lemma NoPointers()
    ensures !Sv32Pages.IsPointer(LEAF) && !Sv32Pages.IsPointer(0)
  {
  }

  lemma ConsultsTable(v: bv32, p: bv32)
    requires Consults(ExampleMem(), v, p)
    ensures InTable(p)
  {
    hide RootWord, RootOffset, InTable, Pte1Address, Pte0Address, Sv32Pages.IsPointer;
    RootEntryIsInTable(v);
    RootWords(v);
    NoPointers();
  }

  /** Inside the superpage's physical range. */
  predicate Far(x: bv32) {
    x & 0xFFC0_0000 == 0x0040_0000
  }

  lemma FarFromTable(p: bv32)
    requires InTable(p)
    ensures !Far(p) && !Far(p + 1) && !Far(p + 2) && !Far(p + 3) && !Mmio.Readable(p)
  {
  }

  lemma ComposedFar(v: bv32)
    ensures Far(Compose(((LEAF >> 10) & 0x3F_FFFF) | ((v >> 12) & 0x3FF), v))
  {
  }

  lemma ExampleEntry(v: bv32)
    ensures ReadPhysical(ExampleMem(), Pte1Address(ROOT_SATP, v)) == (if RootOffset(v) == 0 then LEAF else 0, ExampleMem())
  {
    RootWords(v);
    hide GetWord, RootOffset, InTable, Pte1Address, ReadPhysical, Mmio.Readable;
    RootEntryIsInTable(v);
    FarFromTable(Pte1Address(ROOT_SATP, v));
    Sv32Pages.ReadKeepsRam(ExampleMem(), Pte1Address(ROOT_SATP, v));
  }

  lemma TargetsFar(v: bv32)
    ensures var t := StoreTarget(ExampleMem(), HartOf(ExampleState()), v); t.Some? ==> Far(t.value)
  {
    var m, h := ExampleMem(), HartOf(ExampleState());
    assert h.mode == Csr.USER && m.satp == ROOT_SATP;
    assert EffectiveMode(h, Store) == Csr.USER && !IsBare(ROOT_SATP, h, Store);
    assert LEAF & PTE_V != 0 && IsLeaf(LEAF) && (0 as bv32) & PTE_V == 0;
    hide ReadPhysical, Frame, Compose, Far, SuperpageFaults, RootOffset, Pte1Address, ExampleMem, ExampleState;
    ExampleEntry(v);
    ComposedFar(v);
    if RootOffset(v) == 0 {
      Sv32Manual.FrameSuperpage(m, Csr.USER, h.mstatus, v, Store, LEAF, m);
    } else {
      Sv32Manual.FrameInvalid(m, Csr.USER, h.mstatus, v, Store, 0, m);
    }
  }

  lemma ReachedFar(a: bv32)
    requires StoreReaches(ExampleMem(), HartOf(ExampleState()), a)
    ensures Far(a)
  {
    hide StoreTarget, Far, ExampleMem, ExampleState;
    var v: bv32 :| StoreTarget(ExampleMem(), HartOf(ExampleState()), v) == Mmio.Some(a);
    TargetsFar(v);
  }

  /** The example's page tables are out of reach of its user-mode code, which can store to its
      own page: the integrity results are not about machines in which nothing can be written. */
  lemma ExampleIsSeparated()
    ensures UserMode.UserRun([ExampleState()])
    ensures StoreReaches(ExampleMem(), HartOf(ExampleState()), PHYSICAL)
  {
    assert ExampleState().mode == Csr.USER && ExampleState().mem == ExampleMem();
    hide *;
    forall v: bv32, p: bv32 | Consults(ExampleMem(), v, p)
      ensures !Mmio.Readable(p) && !WordReached(ExampleMem(), HartOf(ExampleState()), p)
    {
      ConsultsTable(v, p);
      OutOfReach(p);
    }
    SeparatedFrom();
    ExampleMaps(0);
    ReachesPage();
  }

  lemma OutOfReach(p: bv32)
    requires InTable(p)
    ensures !Mmio.Readable(p) && !WordReached(ExampleMem(), HartOf(ExampleState()), p)
  {
    hide StoreReaches, Far, InTable, Mmio.Readable, ExampleMem, ExampleState;
    FarFromTable(p);
    if StoreReaches(ExampleMem(), HartOf(ExampleState()), p) { ReachedFar(p); }
    if StoreReaches(ExampleMem(), HartOf(ExampleState()), p + 1) { ReachedFar(p + 1); }
    if StoreReaches(ExampleMem(), HartOf(ExampleState()), p + 2) { ReachedFar(p + 2); }
    if StoreReaches(ExampleMem(), HartOf(ExampleState()), p + 3) { ReachedFar(p + 3); }
  }

  lemma SeparatedFrom()
    requires forall v: bv32, p: bv32 :: Consults(ExampleMem(), v, p) ==>
      !Mmio.Readable(p) && !WordReached(ExampleMem(), HartOf(ExampleState()), p)
    ensures UserMode.UserRun([ExampleState()])
  {
    hide Consults, WordReached, Mmio.Readable, ExampleMem, Follows;
  }

  lemma ReachesPage()
    requires MapsTo(ExampleMem(), HartOf(ExampleState()), VIRTUAL, PHYSICAL)
    ensures StoreReaches(ExampleMem(), HartOf(ExampleState()), PHYSICAL)
  {
    hide Translate, Straddles, Mmio.Readable, ExampleMem, ExampleState;
    Reaches(ExampleMem(), HartOf(ExampleState()), VIRTUAL, PHYSICAL);
  }
}
