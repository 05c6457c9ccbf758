/** The memory system as a hart sees it: a flat byte array, the devices, and Sv32. */
module Bus {
  import opened Words
  import Csr
  import Mmio

  /** 2^32 bytes; the class PagedMemory.Memory keeps them in pages it allocates on demand. */
  type Ram = bv32 -> bv8

  datatype Mem = Mem(ram: Ram, dev: Mmio.Device, satp: bv32)

  datatype AccessType = InstructionFetch | Load | Store

  /** What translation consults of the hart: its mode and mstatus. */
  datatype Hart = Hart(mode: Csr.Mode, mstatus: bv32)

  /** An access either completes or throws a page fault; either way it may have moved
      the memory system. */
  datatype Access<+T> =
    | Done(value: T, mem: Mem)
    | PageFault(address: bv32, kind: AccessType, mem: Mem)

  const PTE_V: bv32 := 0x01
  const PTE_R: bv32 := 0x02
  const PTE_W: bv32 := 0x04
  const PTE_X: bv32 := 0x08
  const PTE_U: bv32 := 0x10
  const PTE_A: bv32 := 0x40
  const PTE_D: bv32 := 0x80
  const MSTATUS_MPRV: bv32 := 0x0002_0000
  const MSTATUS_SUM: bv32 := 0x0004_0000

  // ----- RAM ---------------------------------------------------------------

  function Zeroes(): Ram {
    _ => 0
  }

  function SetByte(ram: Ram, a: bv32, b: bv8): Ram {
    x => if x == a then b else ram(x)
  }

  function GetHalf(ram: Ram, a: bv32): bv32 {
    FromHalf(ram(a), ram(a + 1))
  }

  function SetHalf(ram: Ram, a: bv32, value: bv32): Ram {
    SetByte(SetByte(ram, a, ByteOf(value, 0)), a + 1, ByteOf(value, 1))
  }

  function GetWord(ram: Ram, a: bv32): bv32 {
    FromBytes(ram(a), ram(a + 1), ram(a + 2), ram(a + 3))
  }

  function SetWord(ram: Ram, a: bv32, value: bv32): Ram {
    SetByte(SetByte(SetHalf(ram, a, value), a + 2, ByteOf(value, 2)), a + 3, ByteOf(value, 3))
  }

  // ----- Sv32 --------------------------------------------------------------

  /** `read32Physical`: the value, and the memory system after a device saw the load. */
  function ReadPhysical(m: Mem, paddr: bv32): (bv32, Mem) {
    match Mmio.Read(m.dev, paddr)
    case Some((value, dev)) => (value, m.(dev := dev))
    case None => (GetWord(m.ram, paddr), m)
  }

  /** The mode whose rights a data access is checked with. */
  function EffectiveMode(h: Hart, kind: AccessType): Csr.Mode {
    if h.mode == Csr.MACHINE && kind != InstructionFetch && h.mstatus & MSTATUS_MPRV != 0 then
      ((h.mstatus >> 11) & 3) as bv2
    else h.mode
  }

  function RootTable(satp: bv32): bv32 {
    (satp & 0x3F_FFFF) << 12
  }

  /** The byte offset of the entry for `vaddr` in the root table. */
  function RootOffset(vaddr: bv32): bv32 {
    ((vaddr >> 22) & 0x3FF) << 2
  }

  function EntryAddress(table: bv32, offset: bv32): bv32 {
    table + offset
  }

  function Pte1Address(satp: bv32, vaddr: bv32): bv32 {
    EntryAddress(RootTable(satp), RootOffset(vaddr))
  }

  function Pte0Address(pte1: bv32, vaddr: bv32): bv32 {
    (((pte1 >> 10) & 0x3F_FFFF) << 12) + (((vaddr >> 12) & 0x3FF) << 2)
  }

  /** The source takes a first-level entry for a leaf when R or X is set. */
  predicate IsLeaf(pte1: bv32) {
    pte1 & PTE_R != 0 || pte1 & PTE_X != 0
  }

  /** The checks of the superpage branch, in the order of the source. */
  predicate SuperpageFaults(mode: Csr.Mode, mstatus: bv32, pte1: bv32, kind: AccessType) {
    var r1, w1, x1 := pte1 & PTE_R != 0, pte1 & PTE_W != 0, pte1 & PTE_X != 0;
    var u1, a1, d1 := pte1 & PTE_U != 0, pte1 & PTE_A != 0, pte1 & PTE_D != 0;
    if (!r1 && !x1) || (w1 && !r1) then true
    else if (pte1 >> 10) & 0x3FF != 0 then true
    else if kind == InstructionFetch && !x1 then true
    else if kind == Load && !r1 then true
    else if kind == Store && !w1 then true
    else if mode == Csr.USER && !u1 then true
    else if mode == Csr.SUPERVISOR && u1 && kind == InstructionFetch then true
    else if mode == Csr.SUPERVISOR && u1 && mstatus & MSTATUS_SUM == 0 then true
    else !a1 || (kind == Store && !d1)
  }

  /** The checks of the 4 KiB-page branch, in the order of the source. */
  predicate PageFaults(mode: Csr.Mode, mstatus: bv32, pte0: bv32, kind: AccessType) {
    var r0, w0, x0 := pte0 & PTE_R != 0, pte0 & PTE_W != 0, pte0 & PTE_X != 0;
    var u0, a0, d0 := pte0 & PTE_U != 0, pte0 & PTE_A != 0, pte0 & PTE_D != 0;
    if pte0 & PTE_V == 0 then true
    else if (!r0 && !x0) || (w0 && !r0) then true
    else if kind == InstructionFetch && !x0 then true
    else if kind == Load && !r0 then true
    else if kind == Store && !w0 then true
    else if mode == Csr.USER && !u0 then true
    else if mode == Csr.SUPERVISOR && u0 && kind == InstructionFetch then true
    else if mode == Csr.SUPERVISOR && u0 && mstatus & MSTATUS_SUM == 0 then true
    else !a0 || (kind == Store && !d0)
  }

  /** The physical address in page `ppn` at the offset of `vaddr`, truncated to 32 bits. */
  function Compose(ppn: bv32, vaddr: bv32): bv32 {
    (ppn << 12) + (vaddr & 0xFFF)
  }

  /** The walk below the root entry `pte1`: the frame of `vaddr`, None on a fault. */
  function FrameBelow(m: Mem, mode: Csr.Mode, mstatus: bv32, pte1: bv32, vaddr: bv32, kind: AccessType): (Mmio.Option<bv32>, Mem) {
    if pte1 & PTE_V == 0 then (Mmio.None, m)
    else if IsLeaf(pte1) then
      if SuperpageFaults(mode, mstatus, pte1, kind) then (Mmio.None, m)
      else (Mmio.Some(((pte1 >> 10) & 0x3F_FFFF) | ((vaddr >> 12) & 0x3FF)), m)
    else
      var (pte0, m0) := ReadPhysical(m, Pte0Address(pte1, vaddr));
      if PageFaults(mode, mstatus, pte0, kind) then (Mmio.None, m0)
      else (Mmio.Some((pte0 >> 10) & 0x3F_FFFF), m0)
  }

  /** The two-level walk from the root table. */
  function Frame(m: Mem, mode: Csr.Mode, mstatus: bv32, vaddr: bv32, kind: AccessType): (Mmio.Option<bv32>, Mem) {
    var (pte1, m1) := ReadPhysical(m, Pte1Address(m.satp, vaddr));
    FrameBelow(m1, mode, mstatus, pte1, vaddr, kind)
  }

  /** No translation: machine mode, or paging off. */
  predicate IsBare(satp: bv32, h: Hart, kind: AccessType) {
    EffectiveMode(h, kind) == Csr.MACHINE || satp & 0x8000_0000 == 0
  }

  /** `translateAddress`. */
  function Translate(m: Mem, h: Hart, vaddr: bv32, kind: AccessType): Access<bv32> {
    if IsBare(m.satp, h, kind) then Done(vaddr, m)
    else
      var (frame, m1) := Frame(m, EffectiveMode(h, kind), h.mstatus, vaddr, kind);
      match frame
      case None => PageFault(vaddr, kind, m1)
      case Some(ppn) => Done(Compose(ppn, vaddr), m1)
  }

  // ----- Loads and stores of the hart --------------------------------------

  predicate Overruns(offset: bv32, size: bv32) {
    offset + size > 0x1000
  }

  predicate Straddles(address: bv32, size: bv32) {
    Overruns(address & 0xFFF, size)
  }

  function Read8(m: Mem, h: Hart, address: bv32): Access<bv8> {
    match Translate(m, h, address, Load)
    case PageFault(a, k, m1) => PageFault(a, k, m1)
    case Done(paddr, m1) =>
      match Mmio.Read(m1.dev, paddr)
      case Some((value, dev)) => Done((value & 0xFF) as bv8, m1.(dev := dev))
      case None => Done(m1.ram(paddr), m1)
  }

  function Read16(m: Mem, h: Hart, address: bv32): Access<bv32> {
    if Straddles(address, 2) then
      match Read8(m, h, address)
      case PageFault(a, k, m1) => PageFault(a, k, m1)
      case Done(b0, m1) =>
        match Read8(m1, h, address + 1)
        case PageFault(a, k, m2) => PageFault(a, k, m2)
        case Done(b1, m2) => Done(FromHalf(b0, b1), m2)
    else
      match Translate(m, h, address, Load)
      case PageFault(a, k, m1) => PageFault(a, k, m1)
      case Done(paddr, m1) =>
        match Mmio.Read(m1.dev, paddr)
        case Some((value, dev)) => Done(value & 0xFFFF, m1.(dev := dev))
        case None => Done(GetHalf(m1.ram, paddr), m1)
  }

  /** The bytes of a straddling word, read one by one as loads. */
  function Read32Bytes(m: Mem, h: Hart, address: bv32): Access<bv32> {
    match Read8(m, h, address)
    case PageFault(a, k, m1) => PageFault(a, k, m1)
    case Done(b0, m1) =>
      match Read8(m1, h, address + 1)
      case PageFault(a, k, m2) => PageFault(a, k, m2)
      case Done(b1, m2) =>
        match Read8(m2, h, address + 2)
        case PageFault(a, k, m3) => PageFault(a, k, m3)
        case Done(b2, m3) =>
          match Read8(m3, h, address + 3)
          case PageFault(a, k, m4) => PageFault(a, k, m4)
          case Done(b3, m4) => Done(FromBytes(b0, b1, b2, b3), m4)
  }

  function Read32(m: Mem, h: Hart, address: bv32, isInstruction: bool): Access<bv32> {
    if Straddles(address, 4) then Read32Bytes(m, h, address)
    else
      match Translate(m, h, address, if isInstruction then InstructionFetch else Load)
      case PageFault(a, k, m1) => PageFault(a, k, m1)
      case Done(paddr, m1) =>
        var (value, m2) := ReadPhysical(m1, paddr);
        Done(value, m2)
  }

  function Write8(m: Mem, h: Hart, address: bv32, value: bv8): Access<()> {
    match Translate(m, h, address, Store)
    case PageFault(a, k, m1) => PageFault(a, k, m1)
    case Done(paddr, m1) =>
      match Mmio.Write(m1.dev, paddr, value as bv32)
      case Some(dev) => Done((), m1.(dev := dev))
      case None => Done((), m1.(ram := SetByte(m1.ram, paddr, value)))
  }

  function Write16(m: Mem, h: Hart, address: bv32, value: bv32): Access<()> {
    if Straddles(address, 2) then
      match Write8(m, h, address, ByteOf(value, 0))
      case PageFault(a, k, m1) => PageFault(a, k, m1)
      case Done(_, m1) => Write8(m1, h, address + 1, ByteOf(value, 1))
    else
      match Translate(m, h, address, Store)
      case PageFault(a, k, m1) => PageFault(a, k, m1)
      case Done(paddr, m1) =>
        match Mmio.Write(m1.dev, paddr, value & 0xFFFF)
        case Some(dev) => Done((), m1.(dev := dev))
        case None => Done((), m1.(ram := SetHalf(m1.ram, paddr, value)))
  }

  /** The bytes of a straddling word, written one by one: not atomic. */
  function Write32Bytes(m: Mem, h: Hart, address: bv32, value: bv32): Access<()> {
    match Write8(m, h, address, ByteOf(value, 0))
    case PageFault(a, k, m1) => PageFault(a, k, m1)
    case Done(_, m1) =>
      match Write8(m1, h, address + 1, ByteOf(value, 1))
      case PageFault(a, k, m2) => PageFault(a, k, m2)
      case Done(_, m2) =>
        match Write8(m2, h, address + 2, ByteOf(value, 2))
        case PageFault(a, k, m3) => PageFault(a, k, m3)
        case Done(_, m3) => Write8(m3, h, address + 3, ByteOf(value, 3))
  }

  function Write32(m: Mem, h: Hart, address: bv32, value: bv32): Access<()> {
    if Straddles(address, 4) then Write32Bytes(m, h, address, value)
    else
      match Translate(m, h, address, Store)
      case PageFault(a, k, m1) => PageFault(a, k, m1)
      case Done(paddr, m1) =>
        match Mmio.Write(m1.dev, paddr, value)
        case Some(dev) => Done((), m1.(dev := dev))
        case None => Done((), m1.(ram := SetWord(m1.ram, paddr, value)))
  }

  // ----- Facts every client needs ------------------------------------------

  lemma ComposeOffset(ppn: bv32, vaddr: bv32)
    ensures Compose(ppn, vaddr) & 0xFFF == vaddr & 0xFFF
  {
  }

  /** Translation never touches the offset within the page. */
  lemma OffsetPreserved(m: Mem, h: Hart, vaddr: bv32, kind: AccessType)
    ensures var t := Translate(m, h, vaddr, kind);
      t.Done? ==> t.value & 0xFFF == vaddr & 0xFFF
  {
    hide IsBare, Frame, Compose;
    var frame := Frame(m, EffectiveMode(h, kind), h.mstatus, vaddr, kind).0;
    if frame.Some? {
      ComposeOffset(frame.value, vaddr);
    }
  }

  lemma SameOffset(p: bv32, v: bv32, size: bv32)
    requires p & 0xFFF == v & 0xFFF
    ensures Straddles(p, size) <==> Straddles(v, size)
  {
    hide Overruns;
  }

  /** So an access inside one virtual page is inside one physical page. */
  lemma StaysInPage(m: Mem, h: Hart, vaddr: bv32, kind: AccessType, size: bv32)
    requires Translate(m, h, vaddr, kind).Done?
    ensures Straddles(Translate(m, h, vaddr, kind).value, size) <==> Straddles(vaddr, size)
  {
    hide *;
    OffsetPreserved(m, h, vaddr, kind);
    SameOffset(Translate(m, h, vaddr, kind).value, vaddr, size);
  }
}
