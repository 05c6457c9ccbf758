/** What code in user mode can change: only RAM its own page tables let it store to. */
module Integrity {
  import opened Bus
  import opened Words
  import Csr
  import Mmio
  import Sv32Manual
  import Sv32Pages

  // ----- what is reachable --------------------------------------------------

  /** Where a store to `v` lands. */
  function StoreTarget(m: Mem, h: Hart, v: bv32): Mmio.Option<bv32> {
    match Translate(m, h, v, Bus.Store)
    case Done(p, _) => Mmio.Some(p)
    case PageFault(_, _, _) => Mmio.None
  }

  /** Some virtual address lets a store reach physical byte `a`. */
  ghost predicate StoreReaches(m: Mem, h: Hart, a: bv32) {
    exists v: bv32 :: StoreTarget(m, h, v) == Mmio.Some(a)
  }

  /** The root entry of `v`, as RAM holds it. */
  function RootWord(m: Mem, v: bv32): bv32 {
    GetWord(m.ram, Pte1Address(m.satp, v))
  }

  /** `p` is the address of a page-table entry consulted for `v`. */
  predicate Consults(m: Mem, v: bv32, p: bv32) {
    p == Pte1Address(m.satp, v)
    || (Sv32Pages.IsPointer(RootWord(m, v)) && p == Pte0Address(RootWord(m, v), v))
  }

  ghost predicate WordReached(m: Mem, h: Hart, p: bv32) {
    StoreReaches(m, h, p) || StoreReaches(m, h, p + 1) || StoreReaches(m, h, p + 2) || StoreReaches(m, h, p + 3)
  }

  /** The page tables are in RAM, and no byte of them can be stored to. */
  ghost predicate Separated(m: Mem, h: Hart) {
    forall v: bv32, p: bv32 :: Consults(m, v, p) ==> !Mmio.Readable(p) && !WordReached(m, h, p)
  }

  /** From `m0` to `m`, satp is the same and only reachable bytes of RAM differ. */
  ghost predicate Confined(m0: Mem, m: Mem, h: Hart) {
    m.satp == m0.satp && forall a: bv32 :: m.ram(a) != m0.ram(a) ==> StoreReaches(m0, h, a)
  }

  function WithMem(t: Access<bv32>, m: Mem): Access<bv32> {
    match t
    case Done(p, _) => Done(p, m)
    case PageFault(a, k, _) => PageFault(a, k, m)
  }

  // ----- translation does not move ------------------------------------------

  lemma SameWord(m0: Mem, m: Mem, h: Hart, p: bv32)
    requires Confined(m0, m, h) && !WordReached(m0, h, p)
    ensures GetWord(m.ram, p) == GetWord(m0.ram, p)
  {
    hide StoreReaches, FromBytes;
  }

  /** An entry outside reach reads the same, and reading it has no effect. */
  lemma SameEntry(m0: Mem, m: Mem, h: Hart, v: bv32, p: bv32)
    requires Separated(m0, h) && Confined(m0, m, h) && Consults(m0, v, p)
    ensures ReadPhysical(m, p) == (GetWord(m0.ram, p), m)
  {
    hide ReadPhysical, GetWord, Confined, WordReached, Mmio.Readable, Consults;
    SameWord(m0, m, h, p);
    Sv32Pages.ReadKeepsRam(m, p);
  }

  lemma FrameWithoutTable(m: Mem, n: Mem, mode: Csr.Mode, mstatus: bv32, pte1: bv32, v: bv32, kind: AccessType)
    requires !Sv32Pages.IsPointer(pte1)
    ensures FrameBelow(n, mode, mstatus, pte1, v, kind) == (FrameBelow(m, mode, mstatus, pte1, v, kind).0, n)
  {
    hide ReadPhysical, SuperpageFaults, PageFaults, IsLeaf, Pte0Address;
  }

  /** A frame depends on the two entries only. */
  lemma FrameFromEntries(m: Mem, n: Mem, mode: Csr.Mode, mstatus: bv32, v: bv32, kind: AccessType, pte1: bv32, pte0: bv32)
    requires ReadPhysical(m, Pte1Address(m.satp, v)) == (pte1, m) && ReadPhysical(n, Pte1Address(n.satp, v)) == (pte1, n)
    requires Sv32Pages.IsPointer(pte1) ==>
      ReadPhysical(m, Pte0Address(pte1, v)) == (pte0, m) && ReadPhysical(n, Pte0Address(pte1, v)) == (pte0, n)
    ensures Frame(n, mode, mstatus, v, kind) == (Frame(m, mode, mstatus, v, kind).0, n)
  {
    assert Sv32Pages.IsPointer(pte1) ==> pte1 & PTE_V != 0 && !IsLeaf(pte1);
    hide *;
    Sv32Manual.FrameIs(m, mode, mstatus, v, kind, pte1, m);
    Sv32Manual.FrameIs(n, mode, mstatus, v, kind, pte1, n);
    if Sv32Pages.IsPointer(pte1) {
      Sv32Manual.FrameLast(m, mode, mstatus, pte1, v, kind, pte0, m);
      Sv32Manual.FrameLast(n, mode, mstatus, pte1, v, kind, pte0, n);
    } else {
      FrameWithoutTable(m, n, mode, mstatus, pte1, v, kind);
    }
  }

  lemma ConfinedToItself(m: Mem, h: Hart)
    ensures Confined(m, m, h)
  {
    hide StoreReaches;
  }

  lemma EntriesConsulted(m: Mem, v: bv32)
    ensures Consults(m, v, Pte1Address(m.satp, v))
    ensures Sv32Pages.IsPointer(RootWord(m, v)) ==> Consults(m, v, Pte0Address(RootWord(m, v), v))
  {
    hide RootWord, Pte1Address, Pte0Address, Sv32Pages.IsPointer;
  }

  lemma SameSatp(m0: Mem, m: Mem, h: Hart)
    requires Confined(m0, m, h)
    ensures m.satp == m0.satp
  {
    hide StoreReaches;
  }

  lemma SameFrameAfter(m0: Mem, m: Mem, h: Hart, mode: Csr.Mode, v: bv32, kind: AccessType)
    requires Separated(m0, h) && Confined(m0, m, h)
    ensures Frame(m, mode, h.mstatus, v, kind) == (Frame(m0, mode, h.mstatus, v, kind).0, m)
  {
    var p1, pte1 := Pte1Address(m0.satp, v), RootWord(m0, v);
    var p0 := Pte0Address(pte1, v);
    var pte0 := GetWord(m0.ram, p0);
    assert pte1 == GetWord(m0.ram, p1);
    hide *;
    EntriesConsulted(m0, v);
    ConfinedToItself(m0, h);
    SameSatp(m0, m, h);
    SameEntry(m0, m, h, v, p1);
    SameEntry(m0, m0, h, v, p1);
    if Sv32Pages.IsPointer(pte1) {
      SameEntry(m0, m, h, v, p0);
      SameEntry(m0, m0, h, v, p0);
    }
    FrameFromEntries(m0, m, mode, h.mstatus, v, kind, pte1, pte0);
  }

  /** A page table out of reach keeps translating as it did. */
  lemma TranslateStable(m0: Mem, m: Mem, h: Hart, v: bv32, kind: AccessType)
    requires Separated(m0, h) && Confined(m0, m, h)
    ensures Translate(m, h, v, kind) == WithMem(Translate(m0, h, v, kind), m)
  {
    SameSatp(m0, m, h);
    hide Separated, Confined, IsBare, Frame, Compose, EffectiveMode;
    if !IsBare(m0.satp, h, kind) {
      SameFrameAfter(m0, m, h, EffectiveMode(h, kind), v, kind);
    }
  }

  // ----- neighbours in a page ------------------------------------------------

  lemma Vpn1OfPage(v: bv32)
    ensures (v >> 22) & 0x3FF == ((v >> 12) >> 10) & 0x3FF
  {
  }

  predicate SamePage(u: bv32, v: bv32) {
    u >> 12 == v >> 12
  }

  lemma SameRootOffset(u: bv32, v: bv32)
    requires SamePage(u, v)
    ensures RootOffset(u) == RootOffset(v)
  {
    Vpn1OfPage(u);
    Vpn1OfPage(v);
  }

  lemma SamePageRootEntry(satp: bv32, u: bv32, v: bv32)
    requires SamePage(u, v)
    ensures Pte1Address(satp, u) == Pte1Address(satp, v)
  {
    hide EntryAddress, RootTable, RootOffset, SamePage;
    SameRootOffset(u, v);
  }

  lemma SamePageEntry(pte1: bv32, u: bv32, v: bv32)
    requires SamePage(u, v)
    ensures Pte0Address(pte1, u) == Pte0Address(pte1, v)
  {
  }

  lemma SamePageFrame(m: Mem, mode: Csr.Mode, mstatus: bv32, u: bv32, v: bv32, kind: AccessType)
    requires SamePage(u, v)
    ensures Frame(m, mode, mstatus, u, kind) == Frame(m, mode, mstatus, v, kind)
  {
    var (pte1, m1) := ReadPhysical(m, Pte1Address(m.satp, v));
    SamePageRootEntry(m.satp, u, v);
    SamePageEntry(pte1, u, v);
    hide ReadPhysical, SuperpageFaults, PageFaults, IsLeaf, Pte0Address, Pte1Address;
  }

  /** The last offset from which `k` more bytes are in the page. */
  predicate Together(v: bv32, k: bv32) {
    (v & 0xFFF) + k < 0x1000 && k < 4
  }

  lemma ComposeNext1(ppn: bv32, v: bv32)
    requires Together(v, 1)
    ensures Compose(ppn, v + 1) == Compose(ppn, v) + 1
  {
  }

  lemma PageNext1(v: bv32)
    requires Together(v, 1)
    ensures SamePage(v + 1, v)
  {
  }

  lemma ComposeNext2(ppn: bv32, v: bv32)
    requires Together(v, 2)
    ensures Compose(ppn, v + 2) == Compose(ppn, v) + 2
  {
  }

  lemma PageNext2(v: bv32)
    requires Together(v, 2)
    ensures SamePage(v + 2, v)
  {
  }

  lemma ComposeNext3(ppn: bv32, v: bv32)
    requires Together(v, 3)
    ensures Compose(ppn, v + 3) == Compose(ppn, v) + 3
  {
  }

  lemma PageNext3(v: bv32)
    requires Together(v, 3)
    ensures SamePage(v + 3, v)
  {
  }

  /** Two addresses of one page are stored to in one frame. */
  lemma TargetsInPage(m: Mem, h: Hart, u: bv32, v: bv32) returns (ppn: bv32)
    requires SamePage(u, v) && !IsBare(m.satp, h, Bus.Store)
    requires StoreTarget(m, h, v).Some?
    ensures StoreTarget(m, h, v) == Mmio.Some(Compose(ppn, v))
    ensures StoreTarget(m, h, u) == Mmio.Some(Compose(ppn, u))
  {
    hide SamePage, IsBare, Frame, Compose, EffectiveMode;
    SamePageFrame(m, EffectiveMode(h, Bus.Store), h.mstatus, u, v, Bus.Store);
    ppn := Frame(m, EffectiveMode(h, Bus.Store), h.mstatus, v, Bus.Store).0.value;
  }

  lemma NeighbourTarget1(m: Mem, h: Hart, v: bv32)
    requires Together(v, 1) && StoreTarget(m, h, v).Some?
    ensures StoreTarget(m, h, v + 1) == Mmio.Some(StoreTarget(m, h, v).value + 1)
  {
    if IsBare(m.satp, h, Bus.Store) {
      hide IsBare, Together;
    } else {
      hide *;
      PageNext1(v);
      var ppn := TargetsInPage(m, h, v + 1, v);
      ComposeNext1(ppn, v);
    }
  }

  lemma NeighbourTarget2(m: Mem, h: Hart, v: bv32)
    requires Together(v, 2) && StoreTarget(m, h, v).Some?
    ensures StoreTarget(m, h, v + 2) == Mmio.Some(StoreTarget(m, h, v).value + 2)
  {
    if IsBare(m.satp, h, Bus.Store) {
      hide IsBare, Together;
    } else {
      hide *;
      PageNext2(v);
      var ppn := TargetsInPage(m, h, v + 2, v);
      ComposeNext2(ppn, v);
    }
  }

  lemma NeighbourTarget3(m: Mem, h: Hart, v: bv32)
    requires Together(v, 3) && StoreTarget(m, h, v).Some?
    ensures StoreTarget(m, h, v + 3) == Mmio.Some(StoreTarget(m, h, v).value + 3)
  {
    if IsBare(m.satp, h, Bus.Store) {
      hide IsBare, Together;
    } else {
      hide *;
      PageNext3(v);
      var ppn := TargetsInPage(m, h, v + 3, v);
      ComposeNext3(ppn, v);
    }
  }

  // ----- stores stay confined -------------------------------------------------

  lemma Reaches(m: Mem, h: Hart, v: bv32, p: bv32)
    requires StoreTarget(m, h, v) == Mmio.Some(p)
    ensures StoreReaches(m, h, p)
  {
  }

  lemma ConfinedByte(m0: Mem, m: Mem, h: Hart, p: bv32, b: bv8)
    requires Confined(m0, m, h) && StoreReaches(m0, h, p)
    ensures Confined(m0, m.(ram := SetByte(m.ram, p, b)), h)
  {
    hide StoreReaches;
  }

  lemma ConfinedDevice(m0: Mem, m: Mem, h: Hart, d: Mmio.Device)
    requires Confined(m0, m, h)
    ensures Confined(m0, m.(dev := d), h)
  {
    hide StoreReaches;
  }

  lemma ConfinedHalf(m0: Mem, m: Mem, h: Hart, p: bv32, value: bv32)
    requires Confined(m0, m, h) && StoreReaches(m0, h, p) && StoreReaches(m0, h, p + 1)
    ensures Confined(m0, m.(ram := SetHalf(m.ram, p, value)), h)
  {
    hide StoreReaches, Confined, ByteOf, SetByte;
    ConfinedByte(m0, m, h, p, ByteOf(value, 0));
    ConfinedByte(m0, m.(ram := SetByte(m.ram, p, ByteOf(value, 0))), h, p + 1, ByteOf(value, 1));
  }

  lemma ConfinedWord(m0: Mem, m: Mem, h: Hart, p: bv32, value: bv32)
    requires Confined(m0, m, h) && StoreReaches(m0, h, p) && StoreReaches(m0, h, p + 1)
    requires StoreReaches(m0, h, p + 2) && StoreReaches(m0, h, p + 3)
    ensures Confined(m0, m.(ram := SetWord(m.ram, p, value)), h)
  {
    hide StoreReaches, Confined, ByteOf, SetByte, SetHalf;
    ConfinedHalf(m0, m, h, p, value);
    var m2 := m.(ram := SetHalf(m.ram, p, value));
    ConfinedByte(m0, m2, h, p + 2, ByteOf(value, 2));
    ConfinedByte(m0, m2.(ram := SetByte(m2.ram, p + 2, ByteOf(value, 2))), h, p + 3, ByteOf(value, 3));
  }

  /** The target of a store that completes from `m` is a target from `m0`. */
  lemma TargetStable(m0: Mem, m: Mem, h: Hart, v: bv32)
    requires Separated(m0, h) && Confined(m0, m, h)
    ensures Translate(m, h, v, Bus.Store).mem == m
    ensures Translate(m, h, v, Bus.Store).Done? ==> StoreTarget(m0, h, v) == Mmio.Some(Translate(m, h, v, Bus.Store).value)
  {
    TranslateStable(m0, m, h, v, Bus.Store);
    hide Translate, Separated, Confined;
  }

  lemma Write8Confined(m0: Mem, m: Mem, h: Hart, v: bv32, b: bv8)
    requires Separated(m0, h) && Confined(m0, m, h)
    ensures Confined(m0, Write8(m, h, v, b).mem, h)
  {
    hide Separated, Confined, Translate, StoreTarget, StoreReaches, Mmio.Write, SetByte;
    TargetStable(m0, m, h, v);
    match Translate(m, h, v, Bus.Store)
    case PageFault(_, _, _) =>
    case Done(p, _) =>
      Reaches(m0, h, v, p);
      ConfinedByte(m0, m, h, p, b);
      match Mmio.Write(m.dev, p, b as bv32)
      case None =>
      case Some(d) => ConfinedDevice(m0, m, h, d);
  }

  lemma InPageHalf(v: bv32)
    requires !Straddles(v, 2)
    ensures Together(v, 1)
  {
  }

  lemma InPageWord(v: bv32)
    requires !Straddles(v, 4)
    ensures Together(v, 1) && Together(v, 2) && Together(v, 3)
  {
  }

  lemma ReachesNext1(m: Mem, h: Hart, v: bv32, p: bv32)
    requires Together(v, 1) && StoreTarget(m, h, v) == Mmio.Some(p)
    ensures StoreReaches(m, h, p + 1)
  {
    hide *;
    NeighbourTarget1(m, h, v);
    Reaches(m, h, v + 1, p + 1);
  }

  lemma ReachesNext2(m: Mem, h: Hart, v: bv32, p: bv32)
    requires Together(v, 2) && StoreTarget(m, h, v) == Mmio.Some(p)
    ensures StoreReaches(m, h, p + 2)
  {
    hide *;
    NeighbourTarget2(m, h, v);
    Reaches(m, h, v + 2, p + 2);
  }

  lemma ReachesNext3(m: Mem, h: Hart, v: bv32, p: bv32)
    requires Together(v, 3) && StoreTarget(m, h, v) == Mmio.Some(p)
    ensures StoreReaches(m, h, p + 3)
  {
    hide *;
    NeighbourTarget3(m, h, v);
    Reaches(m, h, v + 3, p + 3);
  }

  lemma ReachesHalf(m: Mem, h: Hart, v: bv32, p: bv32)
    requires !Straddles(v, 2) && StoreTarget(m, h, v) == Mmio.Some(p)
    ensures StoreReaches(m, h, p) && StoreReaches(m, h, p + 1)
  {
    hide *;
    InPageHalf(v);
    Reaches(m, h, v, p);
    ReachesNext1(m, h, v, p);
  }

  lemma ReachesWord(m: Mem, h: Hart, v: bv32, p: bv32)
    requires !Straddles(v, 4) && StoreTarget(m, h, v) == Mmio.Some(p)
    ensures StoreReaches(m, h, p) && StoreReaches(m, h, p + 1) && StoreReaches(m, h, p + 2) && StoreReaches(m, h, p + 3)
  {
    hide *;
    InPageWord(v);
    Reaches(m, h, v, p);
    ReachesNext1(m, h, v, p);
    ReachesNext2(m, h, v, p);
    ReachesNext3(m, h, v, p);
  }

  lemma Write16Confined(m0: Mem, m: Mem, h: Hart, v: bv32, value: bv32)
    requires Separated(m0, h) && Confined(m0, m, h)
    ensures Confined(m0, Write16(m, h, v, value).mem, h)
  {
    hide Separated, Confined, Translate, StoreTarget, StoreReaches, Mmio.Write, SetHalf, Write8, ByteOf, Straddles;
    if Straddles(v, 2) {
      Write8Confined(m0, m, h, v, ByteOf(value, 0));
      Write8Confined(m0, Write8(m, h, v, ByteOf(value, 0)).mem, h, v + 1, ByteOf(value, 1));
    } else {
      TargetStable(m0, m, h, v);
      match Translate(m, h, v, Bus.Store)
      case PageFault(_, _, _) =>
      case Done(p, _) =>
        ReachesHalf(m0, h, v, p);
        ConfinedHalf(m0, m, h, p, value);
        match Mmio.Write(m.dev, p, value & 0xFFFF)
        case None =>
        case Some(d) => ConfinedDevice(m0, m, h, d);
    }
  }

  lemma Write32BytesConfined(m0: Mem, m: Mem, h: Hart, v: bv32, value: bv32)
    requires Separated(m0, h) && Confined(m0, m, h)
    ensures Confined(m0, Write32Bytes(m, h, v, value).mem, h)
  {
    hide Separated, Confined, Write8, ByteOf;
    var m1 := Write8(m, h, v, ByteOf(value, 0)).mem;
    var m2 := Write8(m1, h, v + 1, ByteOf(value, 1)).mem;
    var m3 := Write8(m2, h, v + 2, ByteOf(value, 2)).mem;
    Write8Confined(m0, m, h, v, ByteOf(value, 0));
    Write8Confined(m0, m1, h, v + 1, ByteOf(value, 1));
    Write8Confined(m0, m2, h, v + 2, ByteOf(value, 2));
    Write8Confined(m0, m3, h, v + 3, ByteOf(value, 3));
  }

  lemma Write32Confined(m0: Mem, m: Mem, h: Hart, v: bv32, value: bv32)
    requires Separated(m0, h) && Confined(m0, m, h)
    ensures Confined(m0, Write32(m, h, v, value).mem, h)
  {
    hide Separated, Confined, Translate, StoreTarget, StoreReaches, Mmio.Write, SetWord, Write32Bytes, Straddles;
    if Straddles(v, 4) {
      Write32BytesConfined(m0, m, h, v, value);
    } else {
      TargetStable(m0, m, h, v);
      match Translate(m, h, v, Bus.Store)
      case PageFault(_, _, _) =>
      case Done(p, _) =>
        ReachesWord(m0, h, v, p);
        ConfinedWord(m0, m, h, p, value);
        match Mmio.Write(m.dev, p, value)
        case None =>
        case Some(d) => ConfinedDevice(m0, m, h, d);
    }
  }
}
