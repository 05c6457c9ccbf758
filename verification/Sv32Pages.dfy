/** Two facts about the unrolled walk: a superpage is the table of its 4 KiB pages, and a
    page that can be stored to can be loaded from. */
module Sv32Pages {
  import opened Bus
  import Csr
  import Mmio
  import Sv32Manual

  // ----- a superpage is 1024 pages ------------------------------------------

  /** The entry of the 4 KiB page number `j` of the superpage `leaf`: same flags, page number
      with j filled in. */
  function PageEntry(leaf: bv32, j: bv32): bv32 {
    leaf | (j << 10)
  }

  /** A table in RAM at `table` that lists the pages of `leaf`. */
  ghost predicate ListsPages(ram: Ram, table: bv32, leaf: bv32) {
    forall j: bv32 :: j < 0x400 ==> ListsPage(ram, table, leaf, j)
  }

  predicate ListsPage(ram: Ram, table: bv32, leaf: bv32, j: bv32) {
    !Mmio.Readable(EntryAt(table, j)) && GetWord(ram, EntryAt(table, j)) == PageEntry(leaf, j)
  }

  function EntryAt(table: bv32, j: bv32): bv32 {
    table + (j << 2)
  }

  function TableOf(pte1: bv32): bv32 {
    ((pte1 >> 10) & 0x3F_FFFF) << 12
  }

  predicate IsPointer(pte1: bv32) {
    pte1 & PTE_V != 0 && !IsLeaf(pte1)
  }

  predicate IsSuperpage(pte1: bv32) {
    pte1 & PTE_V != 0 && IsLeaf(pte1) && (pte1 >> 10) & 0x3FF == 0
  }

  function Vpn0(va: bv32): bv32 {
    (va >> 12) & 0x3FF
  }

  lemma EntryAddress(pte1: bv32, va: bv32)
    ensures Pte0Address(pte1, va) == EntryAt(TableOf(pte1), Vpn0(va)) && Vpn0(va) < 0x400
  {
  }

  /** Reading memory through the bus never changes RAM. */
  lemma ReadKeepsRam(m: Mem, paddr: bv32)
    ensures ReadPhysical(m, paddr).1.ram == m.ram && ReadPhysical(m, paddr).1.satp == m.satp
    ensures !Mmio.Readable(paddr) ==> ReadPhysical(m, paddr) == (GetWord(m.ram, paddr), m)
  {
    hide Mmio.Readable, Mmio.Read, GetWord;
    Mmio.Claims(m.dev, paddr, 0);
  }

  /** The flag bits, which all checks but alignment depend on, are the same. */
  lemma SameChecks(mode: Csr.Mode, mstatus: bv32, leaf: bv32, j: bv32, kind: AccessType)
    requires IsSuperpage(leaf) && j < 0x400
    ensures SuperpageFaults(mode, mstatus, leaf, kind) <==> PageFaults(mode, mstatus, PageEntry(leaf, j), kind)
  {
    assert PageEntry(leaf, j) & 0x3FF == leaf & 0x3FF;
    SameFlags(leaf, PageEntry(leaf, j));
    hide PageEntry;
  }

  lemma SameFlags(a: bv32, b: bv32)
    requires a & 0x3FF == b & 0x3FF
    ensures a & PTE_V == b & PTE_V && a & PTE_R == b & PTE_R && a & PTE_W == b & PTE_W && a & PTE_X == b & PTE_X
    ensures a & PTE_U == b & PTE_U && a & PTE_A == b & PTE_A && a & PTE_D == b & PTE_D
  {
  }

  lemma SameFrameNumber(leaf: bv32, j: bv32)
    requires j < 0x400
    ensures (PageEntry(leaf, j) >> 10) & 0x3F_FFFF == ((leaf >> 10) & 0x3F_FFFF) | j
  {
  }

  /** Where one memory maps a superpage and the other a table of its pages, every address of
      the region translates or faults the same way, for every mode, SUM and access type: the
      two checking branches of the source agree. */
  lemma SuperpageIsItsPages(m1: Mem, m2: Mem, h: Hart, va: bv32, kind: AccessType)
    requires !IsBare(m1.satp, h, kind) && !IsBare(m2.satp, h, kind)
    requires IsSuperpage(Sv32Manual.RootEntry(m1, va)) && IsPointer(Sv32Manual.RootEntry(m2, va))
    requires ListsPages(m2.ram, TableOf(Sv32Manual.RootEntry(m2, va)), Sv32Manual.RootEntry(m1, va))
    ensures Translate(m1, h, va, kind).Done? <==> Translate(m2, h, va, kind).Done?
    ensures Translate(m1, h, va, kind).Done? ==> Translate(m1, h, va, kind).value == Translate(m2, h, va, kind).value
    ensures Translate(m1, h, va, kind).PageFault? ==>
      Translate(m1, h, va, kind).address == Translate(m2, h, va, kind).address
      && Translate(m1, h, va, kind).kind == Translate(m2, h, va, kind).kind
  {
    hide IsBare, EffectiveMode, Frame, Compose, Sv32Manual.RootEntry, ListsPages, TableOf;
    SameFrames(m1, m2, EffectiveMode(h, kind), h.mstatus, va, kind);
  }

  lemma SameFrames(m1: Mem, m2: Mem, mode: Csr.Mode, mstatus: bv32, va: bv32, kind: AccessType)
    requires IsSuperpage(Sv32Manual.RootEntry(m1, va)) && IsPointer(Sv32Manual.RootEntry(m2, va))
    requires ListsPages(m2.ram, TableOf(Sv32Manual.RootEntry(m2, va)), Sv32Manual.RootEntry(m1, va))
    ensures Frame(m1, mode, mstatus, va, kind).0 == Frame(m2, mode, mstatus, va, kind).0
  {
    assert Sv32Manual.RootEntry(m1, va) & PTE_V != 0 && IsLeaf(Sv32Manual.RootEntry(m1, va));
    assert Sv32Manual.RootEntry(m2, va) & PTE_V != 0 && !IsLeaf(Sv32Manual.RootEntry(m2, va));
    hide *;
    var leaf, n1 := Sv32Manual.RootEntry(m1, va), ReadPhysical(m1, Pte1Address(m1.satp, va)).1;
    var pointer, n2 := Sv32Manual.RootEntry(m2, va), ReadPhysical(m2, Pte1Address(m2.satp, va)).1;
    var j := Vpn0(va);
    ListedEntry(m2, va, leaf);
    Sv32Manual.RootRead(m1, va);
    Sv32Manual.RootRead(m2, va);
    Sv32Manual.FrameIs(m2, mode, mstatus, va, kind, pointer, n2);
    Sv32Manual.FrameSuperpage(m1, mode, mstatus, va, kind, leaf, n1);
    Sv32Manual.FrameLast(n2, mode, mstatus, pointer, va, kind, PageEntry(leaf, j), n2);
    SameChecks(mode, mstatus, leaf, j, kind);
    SameFrameNumber(leaf, j);
  }

  lemma ListedWord(m: Mem, table: bv32, leaf: bv32, j: bv32)
    requires ListsPage(m.ram, table, leaf, j)
    ensures ReadPhysical(m, EntryAt(table, j)) == (PageEntry(leaf, j), m)
  {
    hide ReadPhysical, Mmio.Readable, GetWord, PageEntry, EntryAt;
    ReadKeepsRam(m, EntryAt(table, j));
  }

  lemma ListedAt(ram: Ram, table: bv32, leaf: bv32, j: bv32)
    requires ListsPages(ram, table, leaf) && j < 0x400
    ensures ListsPage(ram, table, leaf, j)
  {
    hide ListsPage;
  }

  /** The second read finds the listed entry, in RAM. */
  lemma ListedEntry(m: Mem, va: bv32, leaf: bv32)
    requires ListsPages(m.ram, TableOf(Sv32Manual.RootEntry(m, va)), leaf)
    ensures Vpn0(va) < 0x400
    ensures var n := ReadPhysical(m, Pte1Address(m.satp, va)).1;
      ReadPhysical(n, Pte0Address(Sv32Manual.RootEntry(m, va), va)) == (PageEntry(leaf, Vpn0(va)), n)
  {
    hide *;
    var pointer, n := Sv32Manual.RootEntry(m, va), ReadPhysical(m, Pte1Address(m.satp, va)).1;
    EntryAddress(pointer, va);
    ReadKeepsRam(m, Pte1Address(m.satp, va));
    ListedAt(m.ram, TableOf(pointer), leaf, Vpn0(va));
    ListedWord(n, TableOf(pointer), leaf, Vpn0(va));
  }

  // ----- stores imply loads --------------------------------------------------

  lemma StorablePageIsLoadable(mode: Csr.Mode, mstatus: bv32, pte: bv32)
    ensures !PageFaults(mode, mstatus, pte, Store) ==> !PageFaults(mode, mstatus, pte, Load)
  {
  }

  lemma StorableSuperpageIsLoadable(mode: Csr.Mode, mstatus: bv32, pte: bv32)
    ensures !SuperpageFaults(mode, mstatus, pte, Store) ==> !SuperpageFaults(mode, mstatus, pte, Load)
  {
  }

  lemma FrameStoreIsLoad(m: Mem, mode: Csr.Mode, mstatus: bv32, va: bv32)
    requires Frame(m, mode, mstatus, va, Store).0.Some?
    ensures Frame(m, mode, mstatus, va, Load) == Frame(m, mode, mstatus, va, Store)
  {
    hide ReadPhysical, PageFaults, SuperpageFaults, IsLeaf, Pte0Address, Pte1Address;
    var (pte1, m1) := ReadPhysical(m, Pte1Address(m.satp, va));
    var (pte0, m0) := ReadPhysical(m1, Pte0Address(pte1, va));
    StorablePageIsLoadable(mode, mstatus, pte0);
    StorableSuperpageIsLoadable(mode, mstatus, pte1);
  }

  /** If a store translates, so does a load of the same address in the same state, to the
      same physical address, with the same effect on the memory system. */
  lemma StoreImpliesLoad(m: Mem, h: Hart, va: bv32)
    requires Translate(m, h, va, Store).Done?
    ensures Translate(m, h, va, Load) == Translate(m, h, va, Store)
  {
    hide Frame, Compose;
    assert EffectiveMode(h, Load) == EffectiveMode(h, Store);
    if !IsBare(m.satp, h, Store) {
      FrameStoreIsLoad(m, EffectiveMode(h, Store), h.mstatus, va);
    }
  }
}
