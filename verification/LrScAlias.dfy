/** Where the reservation check fails: stores are announced by virtual address while reservations
    are kept by physical address, and addresses do not wrap in it. */
module LrScAlias {
  import opened BareMemory
  import opened Effects
  import opened Isa
  import opened LrSc
  import opened Machine
  import opened RamFacts
  import opened StoredBytes
  import opened Words
  import Bus
  import Csr
  import FlatMemory
  import Mmio
  import SdCard

  /** Loads and stores of `v` go to the RAM word `p`. */
  ghost predicate MapsTo(m: Bus.Mem, h: Bus.Hart, v: bv32, p: bv32) {
    !Bus.Straddles(v, 4) && !Mmio.Readable(p)
    && Bus.Translate(m, h, v, Bus.Load) == Bus.Done(p, m)
    && Bus.Translate(m, h, v, Bus.Store) == Bus.Done(p, m)
  }

  function WithWord(m: Bus.Mem, p: bv32, value: bv32): Bus.Mem {
    m.(ram := Bus.SetWord(m.ram, p, value))
  }

  lemma MappedRead(m: Bus.Mem, h: Bus.Hart, v: bv32, p: bv32)
    requires MapsTo(m, h, v, p)
    ensures Bus.Read32(m, h, v, false) == Bus.Done(Bus.GetWord(m.ram, p), m)
  {
    hide Bus.Translate, Bus.Straddles, Mmio.Read, Mmio.Readable, Bus.GetWord;
    Mmio.Claims(m.dev, p, 0);
  }

  lemma MappedWrite(m: Bus.Mem, h: Bus.Hart, v: bv32, p: bv32, value: bv32)
    requires MapsTo(m, h, v, p)
    ensures Bus.Write32(m, h, v, value) == Bus.Done((), WithWord(m, p, value))
  {
    NotWritable(p);
    hide Bus.Translate, Bus.Straddles, Mmio.Write, Mmio.Readable, Mmio.Writable, Bus.SetWord;
    Mmio.Claims(m.dev, p, value);
  }

  lemma NotWritable(p: bv32)
    requires !Mmio.Readable(p)
    ensures !Mmio.Writable(p)
  {
    hide Mmio.Writable;
  }

  /** After LR.W at `v`, any store, wherever it goes, leaves the reservation exactly when its virtual
      address, taken for a physical one, does not overlap the reserved word: whether the word was
      written plays no part. SC.W then succeeds over what the store left, and else fails. */
  lemma StoreGoesUnnoticed(s: State, v: bv32, p: bv32, op: SOp, u: bv32, x: bv32, m: Bus.Mem, y: bv32, rd: bv5)
    requires MapsTo(s.mem, HartOf(s), v, p) && rd != 0
    requires StoreAccess(s.mem, HartOf(s), op, u, x) == Bus.Done((), m) && MapsTo(m, HartOf(s), v, p)
    ensures var s1 := After(ExecLoadReserved(s, 0, v), s);
      var s2 := After(ExecStore(s1, op, u, x), s1);
      var o := ExecStoreConditional(s2, rd, v, y);
      && s1.reserved && s1.reservation == p
      && s2.mem == m && s2.reserved == !Seen(op, u, p)
      && o.Next? && o.state.regs(rd) == (if Seen(op, u, p) then 1 else 0)
      && o.state.mem == if Seen(op, u, p) then m else WithWord(m, p, y)
  {
    hide MapsTo, Bus.Translate, Bus.Read32, Bus.Write32, StoreAccess, Bus.GetWord, SetRegister, WithWord, StoreSize, NotifyStore, Seen;
    MapsMeans(s.mem, HartOf(s), v, p);
    MapsMeans(m, HartOf(s), v, p);
    MappedRead(s.mem, HartOf(s), v, p);
    MappedWrite(m, HartOf(s), v, p, y);
    var s1 := s.(reserved := true, reservation := p);
    assert ExecLoadReserved(s, 0, v) == Next(WriteRegister(s1, 0, Bus.GetWord(s.mem.ram, p)));
    RegisterZeroWrite(s1, Bus.GetWord(s.mem.ram, p));
    NotifySees(s1, op, u);
    var s2 := s1.(mem := m, reserved := !Seen(op, u, p));
    assert After(ExecStore(s1, op, u, x), s1) == s2;
    var s3 := s2.(reserved := false);
    WrittenRegister(s3, rd, 1);
    WrittenRegister(s3.(mem := WithWord(m, p, y)), rd, 0);
  }

  /** A word store to the reserved word, through its own virtual address or any other. */
  lemma WordStoreGoesUnnoticed(s: State, v: bv32, p: bv32, u: bv32, x: bv32, y: bv32, rd: bv5)
    requires MapsTo(s.mem, HartOf(s), v, p) && MapsTo(s.mem, HartOf(s), u, p) && MapsTo(WithWord(s.mem, p, x), HartOf(s), v, p)
    requires rd != 0
    ensures var s1 := After(ExecLoadReserved(s, 0, v), s);
      var s2 := After(ExecStore(s1, SW, u, x), s1);
      var o := ExecStoreConditional(s2, rd, v, y);
      && s1.reserved && s1.reservation == p && Bus.GetWord(s2.mem.ram, p) == x
      && o.Next? && o.state.regs(rd) == if Seen(SW, u, p) then 1 else 0
  {
    hide MapsTo, ExecLoadReserved, ExecStore, ExecStoreConditional, After, Bus.Write32, Bus.GetWord, WithWord, Seen;
    MappedWrite(s.mem, HartOf(s), u, p, x);
    WordWritten(s.mem, p, x);
    StoreGoesUnnoticed(s, v, p, SW, u, x, WithWord(s.mem, p, x), y, rd);
  }

  lemma RegisterZeroWrite(s: State, value: bv32)
    ensures WriteRegister(s, 0, value) == s
  {
  }

  lemma WordWritten(m: Bus.Mem, p: bv32, x: bv32)
    ensures Bus.GetWord(WithWord(m, p, x).ram, p) == x
  {
    hide Bus.GetWord, Bus.SetWord;
    ReadBack(m.ram, p, x);
  }

  lemma MapsMeans(m: Bus.Mem, h: Bus.Hart, v: bv32, p: bv32)
    requires MapsTo(m, h, v, p)
    ensures Bus.Translate(m, h, v, Bus.Load) == Bus.Done(p, m)
  {
    hide Bus.Translate, Bus.Straddles, Mmio.Readable;
  }

  // ----- an instance ---------------------------------------------------------------

  /** One superpage, virtual 0 to physical 0x0040_0000, with every right; the root table is at 0x1000. */
  const LEAF: bv32 := 0x0010_00DF
  const ROOT_SATP: bv32 := 0x8000_0001
  const VIRTUAL: bv32 := 0x0000_2000
  const PHYSICAL: bv32 := 0x0040_2000

  function ExampleMem(): Bus.Mem {
    var spi := SdCard.Spi(0, 0, 0, 0, 0, 0, 0, false, [], false);
    Bus.Mem(Bus.SetWord(Bus.Zeroes(), 0x1000, LEAF), Mmio.Device(0, 0, 0, [0, 0, 0, 0, 0, 0, 0, 0], false, spi), ROOT_SATP)
  }

  function ExampleState(): State {
    State(r => 0, 0, 0, Csr.USER, Csr.ResetFile(), ExampleMem(), false, 0)
  }

  lemma LeafTranslates(m: Bus.Mem, h: Bus.Hart, kind: Bus.AccessType)
    requires h.mode == Csr.USER && m.satp == ROOT_SATP && Bus.GetWord(m.ram, 0x1000) == LEAF
    requires kind != Bus.InstructionFetch
    ensures Bus.Translate(m, h, VIRTUAL, kind) == Bus.Done(PHYSICAL, m)
  {
    assert Bus.Pte1Address(m.satp, VIRTUAL) == 0x1000;
    assert !Mmio.Readable(0x1000);
    assert !Bus.SuperpageFaults(Csr.USER, h.mstatus, LEAF, kind);
    hide Mmio.Read, Mmio.Readable, Bus.GetWord, Bus.SuperpageFaults, Bus.PageFaults, Bus.Pte0Address;
    Mmio.Claims(m.dev, 0x1000, 0);
  }

  lemma ExampleMaps(x: bv32)
    ensures MapsTo(ExampleMem(), HartOf(ExampleState()), VIRTUAL, PHYSICAL)
    ensures MapsTo(WithWord(ExampleMem(), PHYSICAL, x), HartOf(ExampleState()), VIRTUAL, PHYSICAL)
  {
    var m, h := ExampleMem(), HartOf(ExampleState());
    assert !Bus.Straddles(VIRTUAL, 4) && !Mmio.Readable(PHYSICAL);
    ReadBack(Bus.Zeroes(), 0x1000, LEAF);
    LeafElsewhere(m.ram, x);
    hide Bus.GetWord, Bus.SetWord, Bus.Translate, Bus.Straddles, Mmio.Readable;
    LeafTranslates(m, h, Bus.Load);
    LeafTranslates(m, h, Bus.Store);
    LeafTranslates(WithWord(m, PHYSICAL, x), h, Bus.Load);
    LeafTranslates(WithWord(m, PHYSICAL, x), h, Bus.Store);
  }

  lemma LeafElsewhere(ram: Bus.Ram, x: bv32)
    ensures Bus.GetWord(Bus.SetWord(ram, PHYSICAL, x), 0x1000) == Bus.GetWord(ram, 0x1000)
  {
    hide ByteOf, FromBytes;
  }

  /** In user mode, from the example state, SC.W succeeds although any other value x was stored
      to the reserved word after the LR.W: the guarantee does not extend to translated addresses. */
  lemma SuccessDespiteStore(x: bv32)
    ensures var s1 := After(ExecLoadReserved(ExampleState(), 0, VIRTUAL), ExampleState());
      var s2 := After(ExecStore(s1, SW, VIRTUAL, x), s1);
      var o := ExecStoreConditional(s2, 6, VIRTUAL, 1);
      && s1.reserved && s1.reservation == PHYSICAL
      && Bus.GetWord(ExampleState().mem.ram, PHYSICAL) == 0 && Bus.GetWord(s2.mem.ram, PHYSICAL) == x
      && o.Next? && o.state.regs(6) == 0
  {
    assert !Seen(SW, VIRTUAL, PHYSICAL);
    EmptyWord();
    hide *;
    ExampleMaps(x);
    ExampleHart();
    WordStoreGoesUnnoticed(ExampleState(), VIRTUAL, PHYSICAL, VIRTUAL, x, 1, 6);
  }

  lemma ExampleHart()
    ensures ExampleState().mem == ExampleMem()
  {
    hide ExampleMem;
  }

  lemma EmptyWord()
    ensures Bus.GetWord(ExampleMem().ram, PHYSICAL) == 0
    ensures Bus.GetWord(ExampleState().mem.ram, PHYSICAL) == 0
  {
    assert FromBytes(0, 0, 0, 0) == 0;
    hide ByteOf, FromBytes;
  }

  // ----- an alias of a word that lies at its own address ------------------------------

  /** Two superpages, virtual 0 and virtual 0x0040_0000, both to physical 0. */
  const IDENTITY: bv32 := 0x0000_00DF
  const HOME: bv32 := 0x0000_2000
  const ALIAS: bv32 := 0x0040_2000

  function AliasMem(): Bus.Mem {
    ExampleMem().(ram := Bus.SetWord(Bus.SetWord(Bus.Zeroes(), 0x1000, IDENTITY), 0x1004, IDENTITY))
  }

  function AliasState(): State {
    ExampleState().(mem := AliasMem())
  }

  ghost predicate HasEntries(m: Bus.Mem) {
    m.satp == ROOT_SATP && Bus.GetWord(m.ram, 0x1000) == IDENTITY && Bus.GetWord(m.ram, 0x1004) == IDENTITY
  }

  lemma HomeTranslates(m: Bus.Mem, h: Bus.Hart, kind: Bus.AccessType)
    requires h.mode == Csr.USER && HasEntries(m) && kind != Bus.InstructionFetch
    ensures Bus.Translate(m, h, HOME, kind) == Bus.Done(HOME, m)
  {
    assert Bus.Pte1Address(ROOT_SATP, HOME) == 0x1000 && !Mmio.Readable(0x1000);
    assert !Bus.SuperpageFaults(Csr.USER, h.mstatus, IDENTITY, kind);
    hide Mmio.Read, Mmio.Readable, Bus.GetWord, Bus.SuperpageFaults, Bus.PageFaults, Bus.Pte0Address;
    Mmio.Claims(m.dev, 0x1000, 0);
  }

  lemma AliasTranslates(m: Bus.Mem, h: Bus.Hart, kind: Bus.AccessType)
    requires h.mode == Csr.USER && HasEntries(m) && kind != Bus.InstructionFetch
    ensures Bus.Translate(m, h, ALIAS, kind) == Bus.Done(HOME, m)
  {
    assert Bus.Pte1Address(ROOT_SATP, ALIAS) == 0x1004 && !Mmio.Readable(0x1004);
    assert !Bus.SuperpageFaults(Csr.USER, h.mstatus, IDENTITY, kind);
    hide Mmio.Read, Mmio.Readable, Bus.GetWord, Bus.SuperpageFaults, Bus.PageFaults, Bus.Pte0Address;
    Mmio.Claims(m.dev, 0x1004, 0);
  }

  lemma FirstEntryStays(ram: Bus.Ram)
    ensures Bus.GetWord(Bus.SetWord(ram, 0x1004, IDENTITY), 0x1000) == Bus.GetWord(ram, 0x1000)
  {
    hide ByteOf, FromBytes;
  }

  lemma EntriesStay(ram: Bus.Ram, x: bv32)
    ensures Bus.GetWord(Bus.SetWord(ram, HOME, x), 0x1000) == Bus.GetWord(ram, 0x1000)
    ensures Bus.GetWord(Bus.SetWord(ram, HOME, x), 0x1004) == Bus.GetWord(ram, 0x1004)
  {
    hide ByteOf, FromBytes;
  }

  lemma AliasEntries(x: bv32)
    ensures HasEntries(AliasMem()) && HasEntries(WithWord(AliasMem(), HOME, x))
  {
    ReadBack(Bus.Zeroes(), 0x1000, IDENTITY);
    ReadBack(Bus.SetWord(Bus.Zeroes(), 0x1000, IDENTITY), 0x1004, IDENTITY);
    FirstEntryStays(Bus.SetWord(Bus.Zeroes(), 0x1000, IDENTITY));
    EntriesStay(AliasMem().ram, x);
    hide Bus.GetWord, Bus.SetWord;
  }

  lemma AliasMaps(m: Bus.Mem, h: Bus.Hart)
    requires h.mode == Csr.USER && HasEntries(m)
    ensures MapsTo(m, h, HOME, HOME) && MapsTo(m, h, ALIAS, HOME)
  {
    assert !Bus.Straddles(HOME, 4) && !Bus.Straddles(ALIAS, 4) && !Mmio.Readable(HOME);
    hide HasEntries, Bus.Translate, Bus.Straddles, Mmio.Readable;
    HomeTranslates(m, h, Bus.Load);
    HomeTranslates(m, h, Bus.Store);
    AliasTranslates(m, h, Bus.Load);
    AliasTranslates(m, h, Bus.Store);
  }

  /** The reserved word lies at its own address, so a store through that address would be noticed;
      one through an alias is not, and SC.W succeeds over any other value x. */
  lemma SuccessDespiteAlias(x: bv32)
    ensures Seen(SW, HOME, HOME) && !Seen(SW, ALIAS, HOME)
    ensures var s1 := After(ExecLoadReserved(AliasState(), 0, HOME), AliasState());
      var s2 := After(ExecStore(s1, SW, ALIAS, x), s1);
      var o := ExecStoreConditional(s2, 6, HOME, 1);
      && s1.reserved && s1.reservation == HOME
      && Bus.GetWord(AliasState().mem.ram, HOME) == 0 && Bus.GetWord(s2.mem.ram, HOME) == x
      && o.Next? && o.state.regs(6) == 0
  {
    assert Seen(SW, HOME, HOME) && !Seen(SW, ALIAS, HOME);
    AliasHart();
    AliasEmpty();
    hide *;
    AliasEntries(x);
    AliasMaps(AliasMem(), HartOf(AliasState()));
    AliasMaps(WithWord(AliasMem(), HOME, x), HartOf(AliasState()));
    WordStoreGoesUnnoticed(AliasState(), HOME, HOME, ALIAS, x, 1, 6);
  }

  lemma AliasHart()
    ensures AliasState().mem == AliasMem() && HartOf(AliasState()).mode == Csr.USER
  {
    hide ExampleMem, Bus.SetWord;
  }

  lemma AliasEmpty()
    ensures Bus.GetWord(AliasState().mem.ram, HOME) == 0
  {
    assert FromBytes(0, 0, 0, 0) == 0;
    hide ByteOf, FromBytes;
  }

  // ----- a store that wraps -------------------------------------------------------------

  const WRAPS: bv32 := 0xFFFF_FFFD

  lemma WrapFacts()
    ensures !Seen(SW, WRAPS, 0) && IsRamWord(WRAPS) && IsRamWord(0) && !Bus.Straddles(0, 4) && !Mmio.Readable(0)
  {
  }

  lemma LastByteIsFirst(ram: Bus.Ram, x: bv32)
    ensures Bus.SetWord(ram, WRAPS, x)(0) == ByteOf(x, 3)
  {
    hide ByteOf;
  }

  lemma BareMaps(m: Bus.Mem, h: Bus.Hart)
    requires Bus.IsBare(m.satp, h, Bus.Store)
    ensures MapsTo(m, h, 0, 0)
  {
    WrapFacts();
    hide Bus.IsBare, Bus.Translate, Bus.Straddles, Mmio.Readable, IsRamWord, Seen;
    BareTranslate(m, h, 0, Bus.Load);
    BareTranslate(m, h, 0, Bus.Store);
  }

  /** With translation off, in every state: a word store to 0xFFFF_FFFD wraps and writes its last
      byte to address 0, and an SC.W to a reservation of the word at 0 succeeds all the same. */
  lemma SuccessDespiteWrap(s: State, x: bv32, y: bv32, rd: bv5)
    requires Bare(s) && rd != 0
    ensures var s1 := After(ExecLoadReserved(s, 0, 0), s);
      var s2 := After(ExecStore(s1, SW, WRAPS, x), s1);
      var o := ExecStoreConditional(s2, rd, 0, y);
      && s1.reserved && s1.reservation == 0 && s2.mem.ram(0) == ByteOf(x, 3)
      && o.Next? && o.state.regs(rd) == 0
  {
    WrapFacts();
    LastByteIsFirst(s.mem.ram, x);
    hide MapsTo, ExecLoadReserved, ExecStore, ExecStoreConditional, After, Bus.Write32, Bus.SetWord, ByteOf, Seen, Bus.IsBare, IsRamWord,
         Bus.Straddles, Mmio.Readable, HartOf;
    var m := s.mem.(ram := Bus.SetWord(s.mem.ram, WRAPS, x));
    FlatMemory.Write32Ram(s.mem, HartOf(s), WRAPS, x);
    BareMaps(s.mem, HartOf(s));
    BareMaps(m, HartOf(s));
    StoreGoesUnnoticed(s, 0, 0, SW, WRAPS, x, m, y, rd);
  }
}
