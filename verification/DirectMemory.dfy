/** Loads and stores that translation leaves where they are: with a direct map, or with translation off. */
module DirectMemory {
  import opened BareMemory
  import opened Isa
  import opened Machine
  import opened StoredBytes
  import opened Words
  import Bus
  import BusFacts
  import Mmio

  /** The byte at virtual `v` lies at physical `v`, unless its translation faults. */
  predicate AtHome(m: Bus.Mem, h: Bus.Hart, v: bv32, kind: Bus.AccessType) {
    var t := Bus.Translate(m, h, v, kind);
    t.Done? ==> t.value == v
  }

  /** Every byte the store reaches lies at its own address. */
  predicate Write16AtHome(m: Bus.Mem, h: Bus.Hart, a: bv32, value: bv32) {
    var w0 := Bus.Write8(m, h, a, ByteOf(value, 0));
    AtHome(m, h, a, Bus.Store) && (Bus.Straddles(a, 2) && w0.Done? ==> AtHome(w0.mem, h, a + 1, Bus.Store))
  }

  predicate Write32BytesAtHome(m: Bus.Mem, h: Bus.Hart, a: bv32, value: bv32) {
    var w0 := Bus.Write8(m, h, a, ByteOf(value, 0));
    var w1 := Bus.Write8(w0.mem, h, a + 1, ByteOf(value, 1));
    var w2 := Bus.Write8(w1.mem, h, a + 2, ByteOf(value, 2));
    && AtHome(m, h, a, Bus.Store)
    && (w0.Done? ==> AtHome(w0.mem, h, a + 1, Bus.Store))
    && (w0.Done? && w1.Done? ==> AtHome(w1.mem, h, a + 2, Bus.Store))
    && (w0.Done? && w1.Done? && w2.Done? ==> AtHome(w2.mem, h, a + 3, Bus.Store))
  }

  predicate Write32AtHome(m: Bus.Mem, h: Bus.Hart, a: bv32, value: bv32) {
    if Bus.Straddles(a, 4) then Write32BytesAtHome(m, h, a, value) else AtHome(m, h, a, Bus.Store)
  }

  predicate StoreAtHome(m: Bus.Mem, h: Bus.Hart, op: SOp, a: bv32, value: bv32) {
    match op
    case SB => AtHome(m, h, a, Bus.Store)
    case SH => Write16AtHome(m, h, a, value)
    case SW => Write32AtHome(m, h, a, value)
  }

  /** Every byte the load reaches lies at its own address. */
  predicate Read32AtHome(m: Bus.Mem, h: Bus.Hart, a: bv32) {
    var r0 := Bus.Read8(m, h, a);
    var r1 := Bus.Read8(r0.mem, h, a + 1);
    var r2 := Bus.Read8(r1.mem, h, a + 2);
    && AtHome(m, h, a, Bus.Load)
    && (Bus.Straddles(a, 4) && r0.Done? ==> AtHome(r0.mem, h, a + 1, Bus.Load))
    && (Bus.Straddles(a, 4) && r0.Done? && r1.Done? ==> AtHome(r1.mem, h, a + 2, Bus.Load))
    && (Bus.Straddles(a, 4) && r0.Done? && r1.Done? && r2.Done? ==> AtHome(r2.mem, h, a + 3, Bus.Load))
  }

  // ----- where this holds ------------------------------------------------------------

  lemma ComposeSelf(v: bv32)
    ensures Bus.Compose(v >> 12, v) == v
  {
  }

  /** A page table that gives every page its own number is a direct map. */
  lemma DirectMapAtHome(m: Bus.Mem, h: Bus.Hart, v: bv32, kind: Bus.AccessType)
    requires var frame := Bus.Frame(m, Bus.EffectiveMode(h, kind), h.mstatus, v, kind).0; frame.Some? ==> frame.value == v >> 12
    ensures AtHome(m, h, v, kind)
  {
    ComposeSelf(v);
    hide Bus.Frame, Bus.Compose, Bus.EffectiveMode, Bus.IsBare;
  }

  lemma BareAtHome(m: Bus.Mem, h: Bus.Hart, v: bv32, kind: Bus.AccessType)
    requires Bus.IsBare(m.satp, h, Bus.Store) && kind != Bus.InstructionFetch
    ensures AtHome(m, h, v, kind)
  {
    hide Bus.IsBare, Bus.Translate;
    BareTranslate(m, h, v, kind);
  }

  /** So is no translation, whatever is stored. */
  lemma BareStoreAtHome(m: Bus.Mem, h: Bus.Hart, op: SOp, a: bv32, value: bv32)
    requires Bus.IsBare(m.satp, h, Bus.Store)
    ensures StoreAtHome(m, h, op, a, value)
  {
    hide Bus.IsBare, AtHome, Bus.Write8, Bus.Straddles, ByteOf;
    var m0 := Bus.Write8(m, h, a, ByteOf(value, 0)).mem;
    var m1 := Bus.Write8(m0, h, a + 1, ByteOf(value, 1)).mem;
    var m2 := Bus.Write8(m1, h, a + 2, ByteOf(value, 2)).mem;
    BusFacts.Write8Frame(m, h, a, ByteOf(value, 0));
    BusFacts.Write8Frame(m0, h, a + 1, ByteOf(value, 1));
    BusFacts.Write8Frame(m1, h, a + 2, ByteOf(value, 2));
    BareAtHome(m, h, a, Bus.Store);
    BareAtHome(m0, h, a + 1, Bus.Store);
    BareAtHome(m1, h, a + 2, Bus.Store);
    BareAtHome(m2, h, a + 3, Bus.Store);
  }

  lemma BareReadAtHome(m: Bus.Mem, h: Bus.Hart, a: bv32)
    requires Bus.IsBare(m.satp, h, Bus.Store)
    ensures Read32AtHome(m, h, a)
  {
    hide Bus.IsBare, AtHome, Bus.Read8, Bus.Straddles;
    var m0 := Bus.Read8(m, h, a).mem;
    var m1 := Bus.Read8(m0, h, a + 1).mem;
    var m2 := Bus.Read8(m1, h, a + 2).mem;
    BusFacts.Read8Frame(m, h, a);
    BusFacts.Read8Frame(m0, h, a + 1);
    BusFacts.Read8Frame(m1, h, a + 2);
    BareAtHome(m, h, a, Bus.Load);
    BareAtHome(m0, h, a + 1, Bus.Load);
    BareAtHome(m1, h, a + 2, Bus.Load);
    BareAtHome(m2, h, a + 3, Bus.Load);
  }

  // ----- stores ------------------------------------------------------------------------

  lemma Write8Changes(m: Bus.Mem, n: Bus.Mem, h: Bus.Hart, op: SOp, a: bv32, x: bv32, b: bv8)
    requires AtHome(n, h, x, Bus.Store) && ChangesOnly(m, n, op, a) && Covers(op, a, x)
    ensures ChangesOnly(m, Bus.Write8(n, h, x, b).mem, op, a)
  {
    hide ChangesOnly, Covers, At, Bus.Translate, Mmio.Write, Bus.SetByte;
    BusFacts.TranslateFrame(n, h, x, Bus.Store);
    var n1 := Bus.Translate(n, h, x, Bus.Store).mem;
    StillChangesOnly(m, n, n1, op, a);
    SetByteChanges(m, n1, op, a, x, b);
    StillChangesOnly(m, n, Bus.Write8(n, h, x, b).mem.(ram := n.ram), op, a);
  }

  lemma Write16Changes(m: Bus.Mem, h: Bus.Hart, a: bv32, value: bv32)
    requires Write16AtHome(m, h, a, value)
    ensures ChangesOnly(m, Bus.Write16(m, h, a, value).mem, SH, a)
  {
    hide ChangesOnly, Covers, At, Bus.Translate, Mmio.Write, Bus.SetHalf, Bus.Write8, Bus.Straddles, ByteOf;
    NothingChanges(m, SH, a);
    if Bus.Straddles(a, 2) {
      hide AtHome;
      CoversFirst(SH, a);
      CoversSecond(SH, a);
      var m1 := Bus.Write8(m, h, a, ByteOf(value, 0)).mem;
      Write8Changes(m, m, h, SH, a, a, ByteOf(value, 0));
      if Bus.Write8(m, h, a, ByteOf(value, 0)).Done? {
        Write8Changes(m, m1, h, SH, a, a + 1, ByteOf(value, 1));
      }
    } else {
      BusFacts.TranslateFrame(m, h, a, Bus.Store);
      var n := Bus.Translate(m, h, a, Bus.Store).mem;
      StillChangesOnly(m, m, n, SH, a);
      SetHalfChanges(m, n, SH, a, value);
      StillChangesOnly(m, m, Bus.Write16(m, h, a, value).mem.(ram := m.ram), SH, a);
    }
  }

  lemma Write32BytesChanges(m: Bus.Mem, h: Bus.Hart, a: bv32, value: bv32)
    requires Write32BytesAtHome(m, h, a, value)
    ensures ChangesOnly(m, Bus.Write32Bytes(m, h, a, value).mem, SW, a)
  {
    hide ChangesOnly, Covers, At, AtHome, Bus.Write8, ByteOf;
    NothingChanges(m, SW, a);
    CoversFirst(SW, a);
    CoversSecond(SW, a);
    CoversThird(a);
    CoversFourth(a);
    var w0 := Bus.Write8(m, h, a, ByteOf(value, 0));
    var w1 := Bus.Write8(w0.mem, h, a + 1, ByteOf(value, 1));
    var w2 := Bus.Write8(w1.mem, h, a + 2, ByteOf(value, 2));
    Write8Changes(m, m, h, SW, a, a, ByteOf(value, 0));
    if w0.Done? {
      Write8Changes(m, w0.mem, h, SW, a, a + 1, ByteOf(value, 1));
      if w1.Done? {
        Write8Changes(m, w1.mem, h, SW, a, a + 2, ByteOf(value, 2));
        if w2.Done? {
          Write8Changes(m, w2.mem, h, SW, a, a + 3, ByteOf(value, 3));
        }
      }
    }
  }

  lemma Write32Changes(m: Bus.Mem, h: Bus.Hart, a: bv32, value: bv32)
    requires Write32AtHome(m, h, a, value)
    ensures ChangesOnly(m, Bus.Write32(m, h, a, value).mem, SW, a)
  {
    hide ChangesOnly, Covers, At, Bus.Translate, Mmio.Write, Bus.SetWord, Bus.Write32Bytes, Write32BytesAtHome, Bus.Straddles;
    NothingChanges(m, SW, a);
    if Bus.Straddles(a, 4) {
      Write32BytesChanges(m, h, a, value);
    } else {
      BusFacts.TranslateFrame(m, h, a, Bus.Store);
      var n := Bus.Translate(m, h, a, Bus.Store).mem;
      StillChangesOnly(m, m, n, SW, a);
      SetWordChanges(m, n, a, value);
      StillChangesOnly(m, m, Bus.Write32(m, h, a, value).mem.(ram := m.ram), SW, a);
    }
  }

  /** Such a store changes only the bytes its virtual address names. */
  lemma StoreAccessChanges(m: Bus.Mem, h: Bus.Hart, op: SOp, a: bv32, value: bv32)
    requires StoreAtHome(m, h, op, a, value)
    ensures ChangesOnly(m, StoreAccess(m, h, op, a, value).mem, op, a)
  {
    hide ChangesOnly, Covers, At, AtHome, Bus.Write8, Bus.Write16, Bus.Write32, Write16AtHome, Write32AtHome, ByteOf;
    NothingChanges(m, SB, a);
    CoversFirst(SB, a);
    match op
    case SB => Write8Changes(m, m, h, SB, a, a, ByteOf(value, 0));
    case SH => Write16Changes(m, h, a, value);
    case SW => Write32Changes(m, h, a, value);
  }

  // ----- loads -------------------------------------------------------------------------

  lemma Read8Direct(m: Bus.Mem, h: Bus.Hart, x: bv32)
    requires AtHome(m, h, x, Bus.Load) && !Mmio.Readable(x) && Bus.Read8(m, h, x).Done?
    ensures Bus.Read8(m, h, x).value == m.ram(x)
  {
    hide Bus.Translate, Mmio.Read, Mmio.Readable;
    BusFacts.TranslateFrame(m, h, x, Bus.Load);
    Mmio.Claims(Bus.Translate(m, h, x, Bus.Load).mem.dev, x, 0);
  }

  lemma Read32BytesDirect(m: Bus.Mem, h: Bus.Hart, a: bv32)
    requires Read32AtHome(m, h, a) && Bus.Straddles(a, 4) && IsRamWord(a) && Bus.Read32Bytes(m, h, a).Done?
    ensures Bus.Read32Bytes(m, h, a).value == Bus.GetWord(m.ram, a)
  {
    hide AtHome, Bus.Read8, Bus.Straddles, Mmio.Readable, FromBytes;
    var m1 := Bus.Read8(m, h, a).mem;
    var m2 := Bus.Read8(m1, h, a + 1).mem;
    var m3 := Bus.Read8(m2, h, a + 2).mem;
    BusFacts.Read8Frame(m, h, a);
    BusFacts.Read8Frame(m1, h, a + 1);
    BusFacts.Read8Frame(m2, h, a + 2);
    Read8Direct(m, h, a);
    Read8Direct(m1, h, a + 1);
    Read8Direct(m2, h, a + 2);
    Read8Direct(m3, h, a + 3);
  }

  /** Such a load of a RAM word gives the word at its virtual address. */
  lemma Read32Direct(m: Bus.Mem, h: Bus.Hart, a: bv32)
    requires Read32AtHome(m, h, a) && IsRamWord(a) && Bus.Read32(m, h, a, false).Done?
    ensures Bus.Read32(m, h, a, false).value == Bus.GetWord(m.ram, a)
  {
    hide Bus.Translate, Bus.Read8, Bus.Read32Bytes, Mmio.Read, Mmio.Readable, Bus.GetWord, Bus.Straddles;
    if Bus.Straddles(a, 4) {
      Read32BytesDirect(m, h, a);
    } else {
      BusFacts.TranslateFrame(m, h, a, Bus.Load);
      Mmio.Claims(Bus.Translate(m, h, a, Bus.Load).mem.dev, a, 0);
    }
  }
}
