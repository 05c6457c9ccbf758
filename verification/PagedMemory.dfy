/** The memory system as the emulator keeps it: pages allocated on first store, device
    registers and a disk image, all updated in place. Every method is proved against the
    flat memory of module Bus. */
module PagedMemory {
  import opened Words
  import Bus
  import Crc16
  import Csr
  import Mmio
  import SdCard

  datatype PageNo = PageNo(bits: bv20)

  type Page = array<bv8>

  const PAGE_SIZE: nat := 4096

  function PageOf(a: bv32): PageNo {
    PageNo((a >> 12) as bv20)
  }

  function OffsetOf(a: bv32): bv12 {
    (a & 0xFFF) as bv12
  }

  lemma AddressInjective(a: bv32, b: bv32)
    requires PageOf(a) == PageOf(b) && OffsetOf(a) == OffsetOf(b)
    ensures a == b
  {
  }

  /** Moving inside a page keeps the page number. */
  lemma SamePage(a: bv32)
    requires OffsetOf(a) != 0xFFF
    ensures PageOf(a + 1) == PageOf(a) && OffsetOf(a + 1) == OffsetOf(a) + 1
  {
  }

  lemma IndexPlus2(x: bv12)
    requires x <= 0xFFC
    ensures Index(x + 2) == Index(x) + 2
  {
    hide Index;
    IndexNext(x);
    IndexNext(x + 1);
  }

  lemma IndexPlus3(x: bv12)
    requires x <= 0xFFC
    ensures Index(x + 3) == Index(x) + 3
  {
    hide Index;
    IndexPlus2(x);
    IndexNext(x + 2);
  }

  lemma Room(a: bv32)
    requires !Bus.Straddles(a, 4)
    ensures (a & 0xFFF) <= 0xFFC
  {
  }

  lemma Page1(a: bv32)
    requires (a & 0xFFF) <= 0xFFC
    ensures OffsetOf(a) <= 0xFFC && PageOf(a + 1) == PageOf(a)
  {
  }

  lemma Offset1(a: bv32)
    requires (a & 0xFFF) <= 0xFFC
    ensures OffsetOf(a + 1) == OffsetOf(a) + 1
  {
  }

  lemma InPage1(a: bv32)
    requires !Bus.Straddles(a, 4)
    ensures PageOf(a + 1) == PageOf(a) && Index(OffsetOf(a + 1)) == Index(OffsetOf(a)) + 1
  {
    Room(a);
    hide *;
    Page1(a);
    Offset1(a);
    IndexNext(OffsetOf(a));
  }

  lemma Page2(a: bv32)
    requires (a & 0xFFF) <= 0xFFC
    ensures OffsetOf(a) <= 0xFFC && PageOf(a + 2) == PageOf(a)
  {
  }

  lemma Offset2(a: bv32)
    requires (a & 0xFFF) <= 0xFFC
    ensures OffsetOf(a + 2) == OffsetOf(a) + 2
  {
  }

  lemma InPage2(a: bv32)
    requires !Bus.Straddles(a, 4)
    ensures PageOf(a + 2) == PageOf(a) && Index(OffsetOf(a + 2)) == Index(OffsetOf(a)) + 2
  {
    Room(a);
    hide *;
    Page2(a);
    Offset2(a);
    IndexPlus2(OffsetOf(a));
  }

  lemma Page3(a: bv32)
    requires (a & 0xFFF) <= 0xFFC
    ensures OffsetOf(a) <= 0xFFC && PageOf(a + 3) == PageOf(a)
  {
  }

  lemma Offset3(a: bv32)
    requires (a & 0xFFF) <= 0xFFC
    ensures OffsetOf(a + 3) == OffsetOf(a) + 3
  {
  }

  lemma InPage3(a: bv32)
    requires !Bus.Straddles(a, 4)
    ensures PageOf(a + 3) == PageOf(a) && Index(OffsetOf(a + 3)) == Index(OffsetOf(a)) + 3
  {
    Room(a);
    hide *;
    Page3(a);
    Offset3(a);
    IndexPlus3(OffsetOf(a));
  }

  lemma HalfInPage(a: bv32)
    requires !Bus.Straddles(a, 2)
    ensures PageOf(a + 1) == PageOf(a) && Index(OffsetOf(a + 1)) == Index(OffsetOf(a)) + 1
  {
    assert OffsetOf(a) != 0xFFF;
    hide *;
    SamePage(a);
    IndexNext(OffsetOf(a));
  }

  /** A word that does not straddle a page is four successive bytes of it. */
  lemma WordInPage(a: bv32)
    requires !Bus.Straddles(a, 4)
    ensures PageOf(a + 1) == PageOf(a) && Index(OffsetOf(a + 1)) == Index(OffsetOf(a)) + 1
    ensures PageOf(a + 2) == PageOf(a) && Index(OffsetOf(a + 2)) == Index(OffsetOf(a)) + 2
    ensures PageOf(a + 3) == PageOf(a) && Index(OffsetOf(a + 3)) == Index(OffsetOf(a)) + 3
  {
    hide *;
    InPage1(a);
    InPage2(a);
    InPage3(a);
  }

  /** The value of a completed access, or the page fault it throws. */
  datatype Result<+T> = Ok(value: T) | Thrown(address: bv32, kind: Bus.AccessType)

  /** A result together with the memory system it leaves. */
  ghost function After<T>(r: Result<T>, m: Bus.Mem): Bus.Access<T> {
    match r
    case Ok(value) => Bus.Done(value, m)
    case Thrown(address, kind) => Bus.PageFault(address, kind, m)
  }

  class Memory {
    var pages: map<PageNo, Page>
    var disk: array<bv8>
    var mtime: bv64
    var mtimecmp: bv64
    var currentSatp: bv32
    var spiState: nat
    var spiCmd: bv8
    var spiArg: nat
    var spiArgBytes: nat
    var spiMoved: nat
    var spiReply: bv8
    var spiCrc: bv16
    var spiWaited: bool
    /** Set where the source reads outside its disk; the source keeps no such record. */
    var spiLost: bool
    var uartIn: bv32
    var uartTxIrq: bool
    const uartRegs: array<bv8>
    /** What the pages hold, as a flat array of 2^32 bytes. */
    ghost var ram: Bus.Ram

    ghost function Footprint(): set<object>
      reads this`pages, this`disk
    {
      {this, disk, uartRegs} + pages.Values
    }

    ghost predicate Valid()
      reads this`pages, this`disk, this`ram, pages.Values
      ensures Valid() ==> uartRegs.Length == 8
    {
      && uartRegs.Length == 8
      && disk != uartRegs
      && (forall p: PageNo | p in pages :: pages[p].Length == PAGE_SIZE && pages[p] != disk && pages[p] != uartRegs)
      && (forall p: PageNo, q: PageNo | p in pages && q in pages && p != q :: pages[p] != pages[q])
      && (forall a: bv32 :: ram(a) == PagedByte(a))
    }

    /** The byte the page map stands for at an address: zero when no page is there. */
    ghost function PagedByte(a: bv32): bv8
      reads this`pages, pages.Values
    {
      if PageOf(a) in pages && pages[PageOf(a)].Length == PAGE_SIZE then pages[PageOf(a)][Index(OffsetOf(a))] else 0
    }

    ghost function SpiView(): SdCard.Spi
      reads this`spiState, this`spiCmd, this`spiArg, this`spiArgBytes, this`spiMoved,
            this`spiReply, this`spiCrc, this`spiWaited, this`spiLost, this`disk, disk
    {
      SdCard.Spi(spiState, spiCmd, spiArg, spiArgBytes, spiMoved, spiReply, spiCrc, spiWaited, disk[..], spiLost)
    }

    ghost function DeviceView(): Mmio.Device
      reads this, disk, uartRegs
      requires uartRegs.Length == 8
    {
      Mmio.Device(mtime, mtimecmp, uartIn, uartRegs[..], uartTxIrq, SpiView())
    }

    /** The abstract memory system this object implements. */
    ghost function View(): Bus.Mem
      reads this, disk, uartRegs
      requires uartRegs.Length == 8
    {
      Bus.Mem(ram, DeviceView(), currentSatp)
    }

    constructor (image: array<bv8>)
      ensures Valid() && disk == image && fresh(Footprint() - {image})
      ensures ram == Bus.Zeroes() && currentSatp == 0 && spiState == 0 && spiArg == 0 && !spiLost
    {
      pages := map[];
      disk := image;
      mtime, mtimecmp, currentSatp := 0, 0xFFFF_FFFF_FFFF_FFFF, 0;
      spiState, spiCmd, spiArg, spiArgBytes, spiMoved := 0, 0, 0, 0, 0;
      spiReply, spiCrc, spiWaited, spiLost := 0xFF, 0, false, false;
      uartIn, uartTxIrq := Mmio.NO_INPUT, false;
      uartRegs := new bv8[8](_ => 0);
      ram := Bus.Zeroes();
    }

    /** `getMemoryPtr(address, false)`, dereferenced: a missing page reads as zero. */
    method LoadByte(address: bv32) returns (b: bv8)
      requires Valid()
      ensures b == ram(address)
    {
      if PageOf(address) in pages {
        b := pages[PageOf(address)][Index(OffsetOf(address))];
      } else {
        b := 0;
      }
    }

    /** `getMemoryPtr(address, true)`: the page of an address, allocated and zeroed when
        missing. The flat contents do not change. */
    method PageFor(address: bv32) returns (page: Page)
      requires Valid()
      modifies this`pages
      ensures Valid() && PageOf(address) in pages && page == pages[PageOf(address)]
      ensures fresh(pages.Values - old(pages.Values))
      ensures View() == old(View())
    {
      if PageOf(address) in pages {
        page := pages[PageOf(address)];
      } else {
        page := new bv8[PAGE_SIZE](_ => 0);
        pages := pages[PageOf(address) := page];
      }
    }

    /** Byte `offset` of an allocated page set; `address` is where that byte lives. */
    method Poke(page: Page, offset: nat, b: bv8, ghost address: bv32)
      requires Valid() && PageOf(address) in pages && page == pages[PageOf(address)]
      requires offset == Index(OffsetOf(address))
      modifies page, this`ram
      ensures Valid()
      ensures View() == old(View()).(ram := Bus.SetByte(old(View()).ram, address, b))
    {
      hide Index;
      page[offset] := b;
      ram := Bus.SetByte(ram, address, b);
      forall a: bv32
        ensures ram(a) == PagedByte(a)
      {
        if PageOf(a) == PageOf(address) && a != address {
          if Index(OffsetOf(a)) == offset {
            IndexInjective(OffsetOf(a), OffsetOf(address));
            AddressInjective(a, address);
          }
        }
      }
    }

    // ----- devices ---------------------------------------------------------

    /** A byte sent to the SD port. */
    method WriteSd(b: bv8)
      requires Valid()
      modifies this`spiState, this`spiCmd, this`spiArg, this`spiArgBytes, this`spiMoved,
               this`spiReply, this`spiCrc, this`spiWaited, this`spiLost, disk
      ensures Valid() && uartRegs[..] == old(uartRegs[..])
      ensures SpiView() == SdCard.Write(old(SpiView()), b)
    {
      hide Valid, ByteVal;
      if spiLost {
      } else if spiState == 0 {
        spiReply := 0xFF;
        if b != 0xFF {
          spiCmd, spiState, spiArg, spiArgBytes := b & 0x3F, 1, 0, 0;
        }
      } else if spiState == 1 {
        spiArg := (spiArg * 0x100 + ByteVal(b)) % TWO_32;
        spiArgBytes := spiArgBytes + 1;
        if spiArgBytes == 4 {
          spiState := 2;
        }
      } else if spiState == 2 {
        spiReply := 0x00;
        if spiCmd == SdCard.READ_BLOCK {
          spiState, spiMoved := 3, 0;
        } else if spiCmd == SdCard.WRITE_BLOCK {
          spiState, spiMoved := 4, 0;
        } else {
          spiState := 0;
        }
      } else if spiState == 3 {
        ClockRead();
      } else if spiState == 4 {
        ClockWrite(b);
      }
    }

    method ClockRead()
      requires Valid()
      modifies this`spiState, this`spiMoved, this`spiReply, this`spiCrc, this`spiLost
      ensures Valid()
      ensures SpiView() == SdCard.WriteWhileReading(old(SpiView()))
    {
      hide Valid, SdCard.BlockCrc, SdCard.Overreads, SdCard.BlockStart, Crc16.High, Crc16.Low;
      ghost var image := disk[..];
      if spiMoved == 0 {
        StartRead();
      } else if spiMoved == 1 {
        spiReply := 0xFE;
        spiMoved := 2;
      } else if spiMoved <= 513 {
        var i := SdCard.BlockStart(spiArg) + (spiMoved - 2);
        spiReply := if i < disk.Length then disk[i] else 0;
        spiMoved := spiMoved + 1;
      } else if spiMoved == 514 {
        spiReply := Crc16.High(spiCrc);
        spiMoved := 515;
      } else if spiMoved == 515 {
        spiReply := Crc16.Low(spiCrc);
        spiMoved := 516;
      } else {
        spiReply := 0xFF;
        spiState := 0;
      }
      assert disk[..] == image;
    }

    /** The first clock of a read: the bound test, and the CRC of a block that passes it. */
    method StartRead()
      requires Valid() && spiMoved == 0
      modifies this`spiMoved, this`spiReply, this`spiCrc, this`spiLost
      ensures Valid()
      ensures SpiView() == SdCard.WriteWhileReading(old(SpiView()))
    {
      hide Valid, Crc16.Crc;
      var start := SdCard.BlockStart(spiArg);
      var crc: bv16 := 0;
      if (start + 512) % TWO_32 <= disk.Length {
        if start + 512 > disk.Length {
          spiLost := true;
          return;
        }
        crc := Crc16.GetCrc16(disk, start, 512);
        assert disk[start..start + 512] == disk[..][start..start + 512];
      }
      spiReply, spiCrc, spiMoved := 0x00, crc, 1;
    }

    method ClockWrite(b: bv8)
      requires Valid()
      modifies this`spiState, this`spiMoved, this`spiReply, this`spiWaited, disk
      ensures Valid() && uartRegs[..] == old(uartRegs[..])
      ensures SpiView() == SdCard.WriteWhileWriting(old(SpiView()), b)
    {
      hide PagedByte;
      if spiMoved == 0 {
        if !spiWaited {
          spiReply, spiWaited := 0x00, true;
        } else {
          spiReply := 0xFF;
        }
        if b == 0xFE {
          spiMoved, spiWaited := 1, false;
        }
      } else if spiMoved <= 512 {
        var i := SdCard.BlockStart(spiArg) + (spiMoved - 1);
        if i < disk.Length {
          disk[i] := b;
        }
        spiMoved := spiMoved + 1;
      } else if spiMoved <= 514 {
        spiMoved := spiMoved + 1;
      } else {
        spiReply, spiState := 0x05, 0;
      }
    }

    method WriteUart(offset: nat, value: bv32)
      requires Valid() && offset < 8
      modifies this`uartTxIrq, uartRegs
      ensures Valid() && disk[..] == old(disk[..])
      ensures DeviceView() == Mmio.UartWrite(old(DeviceView()), offset, value)
    {
      hide PagedByte, Mmio.LowByte;
      if offset == 0 {
        if uartRegs[3] & 0x80 == 0 {
          uartTxIrq := true;
        } else {
          uartRegs[0] := Mmio.LowByte(value);
        }
      } else if offset == 1 {
        uartRegs[1] := Mmio.LowByte(value);
        if value & 0x02 != 0 {
          uartTxIrq := true;
        }
      } else {
        uartRegs[offset] := Mmio.LowByte(value);
      }
    }

    /** `handleMMIO`: true when a device took the store. */
    method HandleMmio(address: bv32, value: bv32) returns (handled: bool)
      requires Valid()
      modifies this`mtimecmp, this`uartTxIrq, uartRegs,
               this`spiState, this`spiCmd, this`spiArg, this`spiArgBytes, this`spiMoved,
               this`spiReply, this`spiCrc, this`spiWaited, this`spiLost, disk
      ensures Valid()
      ensures match Mmio.Write(old(DeviceView()), address, value)
              case Some(d) => handled && DeviceView() == d
              case None => !handled && DeviceView() == old(DeviceView())
    {
      hide Valid, SpiView, Mmio.UartWrite, Mmio.UartOffset, Mmio.IsUart, Mmio.WithLow, Mmio.WithHigh, Mmio.LowByte, SdCard.Write;
      handled := true;
      if address == Mmio.MTIMECMP {
        mtimecmp := Mmio.WithLow(mtimecmp, value);
      } else if address == Mmio.MTIMECMP_HIGH {
        mtimecmp := Mmio.WithHigh(mtimecmp, value);
      } else if Mmio.IsUart(address) {
        WriteUart(Mmio.UartOffset(address), value);
      } else if address == Mmio.SD_DATA {
        WriteSd(Mmio.LowByte(value));
      } else {
        handled := address == Mmio.PLIC_CLAIM || address == Mmio.SD_CONTROL;
      }
    }

    method ReadUart(offset: nat) returns (value: bv32)
      requires Valid() && offset < 8
      modifies this`uartIn, this`uartTxIrq
      ensures Valid()
      ensures (value, DeviceView()) == Mmio.UartRead(old(DeviceView()), offset)
    {
      hide PagedByte;
      if offset == 0 {
        if uartRegs[3] & 0x80 != 0 {
          value := uartRegs[0] as bv32;
        } else {
          value := if uartIn != Mmio.NO_INPUT then uartIn else 0;
          uartIn := Mmio.NO_INPUT;
        }
      } else if offset == 2 {
        if uartIn != Mmio.NO_INPUT && uartRegs[1] & 0x01 != 0 {
          value := 0xC4;
        } else if uartTxIrq && uartRegs[1] & 0x02 != 0 {
          value := 0xC2;
          uartTxIrq := false;
        } else {
          value := 0xC1;
        }
      } else if offset == 5 {
        value := if uartIn != Mmio.NO_INPUT then 0x61 else 0x60;
      } else if offset == 6 {
        value := 0x00;
      } else {
        value := uartRegs[offset] as bv32;
      }
    }

    method IsUartIrqPending() returns (pending: bool)
      requires Valid()
      ensures pending == Mmio.UartIrqPending(DeviceView())
    {
      hide PagedByte;
      pending := (uartIn != Mmio.NO_INPUT && uartRegs[1] & 0x01 != 0) || (uartTxIrq && uartRegs[1] & 0x02 != 0);
    }

    method SdReply() returns (value: bv32)
      ensures value == SpiView().reply as bv32
    {
      value := spiReply as bv32;
    }

    /** `handleMMIORead`: whether a device answers the load, and its answer. */
    method HandleMmioRead(address: bv32) returns (handled: bool, value: bv32)
      requires Valid()
      modifies this`uartIn, this`uartTxIrq
      ensures Valid()
      ensures match Mmio.Read(old(DeviceView()), address)
              case Some((v, d)) => handled && value == v && DeviceView() == d
              case None => !handled && DeviceView() == old(DeviceView())
    {
      hide Valid, SpiView, Mmio.Low, Mmio.High, Mmio.UartRead, Mmio.UartOffset, Mmio.IsUart, Mmio.UartIrqPending;
      handled, value := true, 0;
      if address == Mmio.MTIME {
        value := Mmio.Low(mtime);
      } else if address == Mmio.MTIME_HIGH {
        value := Mmio.High(mtime);
      } else if address == Mmio.MTIMECMP {
        value := Mmio.Low(mtimecmp);
      } else if address == Mmio.MTIMECMP_HIGH {
        value := Mmio.High(mtimecmp);
      } else if Mmio.IsUart(address) {
        value := ReadUart(Mmio.UartOffset(address));
      } else if address == Mmio.PLIC_CLAIM {
        var pending := IsUartIrqPending();
        value := if pending then 12 else 0;
      } else if address == Mmio.SD_CONTROL {
        value := 0;
      } else if address == Mmio.SD_DATA {
        value := SdReply();
      } else {
        handled := false;
      }
    }

    // ----- physical access and translation ---------------------------------

    /** `read32Physical`: a device register, a word inside one page, or four bytes. */
    method ReadPhysical(paddr: bv32) returns (value: bv32)
      requires Valid()
      modifies this`uartIn, this`uartTxIrq
      ensures Valid()
      ensures (value, View()) == Bus.ReadPhysical(old(View()), paddr)
    {
      hide Valid, DeviceView, Mmio.Read, Bus.GetWord, FromBytes;
      var handled, answer := HandleMmioRead(paddr);
      if handled {
        return answer;
      }
      value := LoadWord(paddr);
    }

    method LoadWord(paddr: bv32) returns (value: bv32)
      requires Valid()
      ensures value == Bus.GetWord(ram, paddr)
    {
      hide Valid, Bus.GetWord, Bus.Straddles, PageOf;
      if !Bus.Straddles(paddr, 4) && PageOf(paddr) in pages {
        value := LoadWordInPage(paddr);
      } else {
        value := LoadWordBytes(paddr);
      }
    }

    method LoadWordInPage(paddr: bv32) returns (value: bv32)
      requires Valid() && !Bus.Straddles(paddr, 4) && PageOf(paddr) in pages
      ensures value == Bus.GetWord(ram, paddr)
    {
      hide FromBytes, Bus.Straddles, PageOf, OffsetOf, Index;
      WordInPage(paddr);
      var page, offset := pages[PageOf(paddr)], Index(OffsetOf(paddr));
      value := FromBytes(page[offset], page[offset + 1], page[offset + 2], page[offset + 3]);
    }

    method LoadWordBytes(paddr: bv32) returns (value: bv32)
      requires Valid()
      ensures value == Bus.GetWord(ram, paddr)
    {
      hide Valid, FromBytes;
      var b0 := LoadByte(paddr);
      var b1 := LoadByte(paddr + 1);
      var b2 := LoadByte(paddr + 2);
      var b3 := LoadByte(paddr + 3);
      value := FromBytes(b0, b1, b2, b3);
    }

    /** `translateAddress`. */
    method TranslateAddress(h: Bus.Hart, vaddr: bv32, kind: Bus.AccessType) returns (r: Result<bv32>)
      requires Valid()
      modifies this`uartIn, this`uartTxIrq
      ensures Valid()
      ensures After(r, View()) == Bus.Translate(old(View()), h, vaddr, kind)
    {
      hide Valid, DeviceView, Bus.IsBare, Bus.EffectiveMode, Bus.Pte1Address, Bus.ReadPhysical, Bus.FrameBelow, Bus.Compose;
      if Bus.IsBare(currentSatp, h, kind) {
        return Ok(vaddr);
      }
      var pte1 := ReadPhysical(Bus.Pte1Address(currentSatp, vaddr));
      ghost var m1 := View();
      assert (pte1, m1) == Bus.ReadPhysical(old(View()), Bus.Pte1Address(old(View()).satp, vaddr));
      r := TranslateBelow(Bus.EffectiveMode(h, kind), h.mstatus, pte1, vaddr, kind);
      assert Bus.Frame(old(View()), Bus.EffectiveMode(h, kind), h.mstatus, vaddr, kind)
          == Bus.FrameBelow(m1, Bus.EffectiveMode(h, kind), h.mstatus, pte1, vaddr, kind);
    }

    /** The part of `translateAddress` after the root entry was read. */
    method TranslateBelow(mode: Csr.Mode, mstatus: bv32, pte1: bv32, vaddr: bv32, kind: Bus.AccessType) returns (r: Result<bv32>)
      requires Valid()
      modifies this`uartIn, this`uartTxIrq
      ensures Valid()
      ensures var (frame, m) := Bus.FrameBelow(old(View()), mode, mstatus, pte1, vaddr, kind);
        View() == m && r == if frame.Some? then Ok(Bus.Compose(frame.value, vaddr)) else Thrown(vaddr, kind)
    {
      hide Valid, DeviceView, Bus.ReadPhysical, Bus.SuperpageFaults, Bus.PageFaults, Bus.IsLeaf, Bus.Compose, Bus.Pte0Address;
      if pte1 & Bus.PTE_V == 0 {
        return Thrown(vaddr, kind);
      }
      if Bus.IsLeaf(pte1) {
        if Bus.SuperpageFaults(mode, mstatus, pte1, kind) {
          return Thrown(vaddr, kind);
        }
        return Ok(Bus.Compose(((pte1 >> 10) & 0x3F_FFFF) | ((vaddr >> 12) & 0x3FF), vaddr));
      }
      var pte0 := ReadPhysical(Bus.Pte0Address(pte1, vaddr));
      if Bus.PageFaults(mode, mstatus, pte0, kind) {
        return Thrown(vaddr, kind);
      }
      r := Ok(Bus.Compose((pte0 >> 10) & 0x3F_FFFF, vaddr));
    }

    // ----- loads and stores of the hart ------------------------------------

    method Read8(h: Bus.Hart, address: bv32) returns (r: Result<bv8>)
      requires Valid()
      modifies this`uartIn, this`uartTxIrq
      ensures Valid()
      ensures After(r, View()) == Bus.Read8(old(View()), h, address)
    {
      hide Valid, DeviceView, Mmio.Read, Bus.Translate;
      var t := TranslateAddress(h, address, Bus.Load);
      if t.Thrown? {
        return Thrown(t.address, t.kind);
      }
      var handled, answer := HandleMmioRead(t.value);
      if handled {
        return Ok((answer & 0xFF) as bv8);
      }
      var b := LoadByte(t.value);
      r := Ok(b);
    }

    method Read16(h: Bus.Hart, address: bv32) returns (r: Result<bv32>)
      requires Valid()
      modifies this`uartIn, this`uartTxIrq
      ensures Valid()
      ensures After(r, View()) == Bus.Read16(old(View()), h, address)
    {
      hide Valid, DeviceView, Mmio.Read, Bus.Translate, Bus.Read8, Bus.Straddles, Bus.GetHalf, FromHalf;
      if Bus.Straddles(address, 2) {
        var b0 := Read8(h, address);
        if b0.Thrown? {
          return Thrown(b0.address, b0.kind);
        }
        var b1 := Read8(h, address + 1);
        if b1.Thrown? {
          return Thrown(b1.address, b1.kind);
        }
        return Ok(FromHalf(b0.value, b1.value));
      }
      var t := TranslateAddress(h, address, Bus.Load);
      if t.Thrown? {
        return Thrown(t.address, t.kind);
      }
      var handled, answer := HandleMmioRead(t.value);
      if handled {
        return Ok(answer & 0xFFFF);
      }
      var half := LoadHalf(t.value);
      r := Ok(half);
    }

    method LoadHalf(paddr: bv32) returns (value: bv32)
      requires Valid()
      ensures value == Bus.GetHalf(ram, paddr)
    {
      hide Valid, FromHalf;
      var b0 := LoadByte(paddr);
      var b1 := LoadByte(paddr + 1);
      value := FromHalf(b0, b1);
    }

    method Read32(h: Bus.Hart, address: bv32, isInstruction: bool) returns (r: Result<bv32>)
      requires Valid()
      modifies this`uartIn, this`uartTxIrq
      ensures Valid()
      ensures After(r, View()) == Bus.Read32(old(View()), h, address, isInstruction)
    {
      hide Valid, DeviceView, Bus.Read32Bytes, Bus.ReadPhysical, Bus.Translate, Bus.Straddles;
      if Bus.Straddles(address, 4) {
        r := Read32Bytes(h, address);
        return;
      }
      var t := TranslateAddress(h, address, if isInstruction then Bus.InstructionFetch else Bus.Load);
      if t.Thrown? {
        return Thrown(t.address, t.kind);
      }
      var word := ReadPhysical(t.value);
      r := Ok(word);
    }

    method Read32Bytes(h: Bus.Hart, address: bv32) returns (r: Result<bv32>)
      requires Valid()
      modifies this`uartIn, this`uartTxIrq
      ensures Valid()
      ensures After(r, View()) == Bus.Read32Bytes(old(View()), h, address)
    {
      hide Valid, View, Bus.Read8, FromBytes;
      var b0 := Read8(h, address);
      if b0.Thrown? {
        return Thrown(b0.address, b0.kind);
      }
      var b1 := Read8(h, address + 1);
      if b1.Thrown? {
        return Thrown(b1.address, b1.kind);
      }
      var b2 := Read8(h, address + 2);
      if b2.Thrown? {
        return Thrown(b2.address, b2.kind);
      }
      var b3 := Read8(h, address + 3);
      if b3.Thrown? {
        return Thrown(b3.address, b3.kind);
      }
      r := Ok(FromBytes(b0.value, b1.value, b2.value, b3.value));
    }

    method Write8(h: Bus.Hart, address: bv32, value: bv8) returns (r: Result<()>)
      requires Valid()
      modifies Footprint()
      ensures Valid() && disk == old(disk) && fresh(Footprint() - old(Footprint()))
      ensures After(r, View()) == Bus.Write8(old(View()), h, address, value)
    {
      hide Valid, DeviceView, Mmio.Write, Bus.Translate, Bus.SetByte;
      var t := TranslateAddress(h, address, Bus.Store);
      if t.Thrown? {
        return Thrown(t.address, t.kind);
      }
      var handled := HandleMmio(t.value, value as bv32);
      if !handled {
        StoreByte(t.value, value);
      }
      r := Ok(());
    }

    method StoreByte(paddr: bv32, value: bv8)
      requires Valid()
      modifies this`pages, this`ram, pages.Values
      ensures Valid() && disk == old(disk) && fresh(Footprint() - old(Footprint()))
      ensures View() == old(View()).(ram := Bus.SetByte(old(View()).ram, paddr, value))
    {
      hide Valid, View, Bus.SetByte, Index, PageOf, OffsetOf;
      var page := PageFor(paddr);
      Poke(page, Index(OffsetOf(paddr)), value, paddr);
    }

    method StoreHalf(paddr: bv32, value: bv32)
      requires Valid() && !Bus.Straddles(paddr, 2)
      modifies this`pages, this`ram, pages.Values
      ensures Valid() && disk == old(disk) && fresh(Footprint() - old(Footprint()))
      ensures View() == old(View()).(ram := Bus.SetHalf(old(View()).ram, paddr, value))
    {
      hide Valid, View, Bus.SetByte, Bus.Straddles, Index, ByteOf, PageOf, OffsetOf;
      HalfInPage(paddr);
      var page := PageFor(paddr);
      var offset := Index(OffsetOf(paddr));
      Poke(page, offset, ByteOf(value, 0), paddr);
      Poke(page, offset + 1, ByteOf(value, 1), paddr + 1);
    }

    method StoreWord(paddr: bv32, value: bv32)
      requires Valid() && !Bus.Straddles(paddr, 4)
      modifies this`pages, this`ram, pages.Values
      ensures Valid() && disk == old(disk) && fresh(Footprint() - old(Footprint()))
      ensures View() == old(View()).(ram := Bus.SetWord(old(View()).ram, paddr, value))
    {
      hide Valid, View, Bus.SetByte, Bus.Straddles, Index, ByteOf, PageOf, OffsetOf;
      WordInPage(paddr);
      var page := PageFor(paddr);
      var offset := Index(OffsetOf(paddr));
      Poke(page, offset, ByteOf(value, 0), paddr);
      Poke(page, offset + 1, ByteOf(value, 1), paddr + 1);
      Poke(page, offset + 2, ByteOf(value, 2), paddr + 2);
      Poke(page, offset + 3, ByteOf(value, 3), paddr + 3);
    }

    method Write16(h: Bus.Hart, address: bv32, value: bv32) returns (r: Result<()>)
      requires Valid()
      modifies Footprint()
      ensures Valid() && disk == old(disk) && fresh(Footprint() - old(Footprint()))
      ensures After(r, View()) == Bus.Write16(old(View()), h, address, value)
    {
      hide Valid, DeviceView, Mmio.Write, Bus.Translate, Bus.Write8, Bus.SetHalf, Bus.Straddles, ByteOf;
      if Bus.Straddles(address, 2) {
        r := Write8(h, address, ByteOf(value, 0));
        if r.Ok? {
          r := Write8(h, address + 1, ByteOf(value, 1));
        }
        return;
      }
      var t := TranslateAddress(h, address, Bus.Store);
      if t.Thrown? {
        return Thrown(t.address, t.kind);
      }
      Bus.StaysInPage(old(View()), h, address, Bus.Store, 2);
      var handled := HandleMmio(t.value, value & 0xFFFF);
      if !handled {
        StoreHalf(t.value, value);
      }
      r := Ok(());
    }

    method Write32(h: Bus.Hart, address: bv32, value: bv32) returns (r: Result<()>)
      requires Valid()
      modifies Footprint()
      ensures Valid() && disk == old(disk) && fresh(Footprint() - old(Footprint()))
      ensures After(r, View()) == Bus.Write32(old(View()), h, address, value)
    {
      hide Valid, DeviceView, Mmio.Write, Bus.Translate, Bus.Write32Bytes, Bus.SetWord, Bus.Straddles;
      if Bus.Straddles(address, 4) {
        r := Write32Bytes(h, address, value);
        return;
      }
      var t := TranslateAddress(h, address, Bus.Store);
      if t.Thrown? {
        return Thrown(t.address, t.kind);
      }
      Bus.StaysInPage(old(View()), h, address, Bus.Store, 4);
      var handled := HandleMmio(t.value, value);
      if !handled {
        StoreWord(t.value, value);
      }
      r := Ok(());
    }

    method Write32Bytes(h: Bus.Hart, address: bv32, value: bv32) returns (r: Result<()>)
      requires Valid()
      modifies Footprint()
      ensures Valid() && disk == old(disk) && fresh(Footprint() - old(Footprint()))
      ensures After(r, View()) == Bus.Write32Bytes(old(View()), h, address, value)
    {
      hide Valid, View, Bus.Write8, ByteOf;
      r := Write8(h, address, ByteOf(value, 0));
      if r.Ok? {
        r := Write8(h, address + 1, ByteOf(value, 1));
      }
      if r.Ok? {
        r := Write8(h, address + 2, ByteOf(value, 2));
      }
      if r.Ok? {
        r := Write8(h, address + 3, ByteOf(value, 3));
      }
    }

    // ----- control ---------------------------------------------------------

    method SetSatp(satp: bv32)
      requires Valid()
      modifies this`currentSatp
      ensures Valid() && View() == old(View()).(satp := satp)
    {
      currentSatp := satp;
    }

    method IncrementTime()
      requires Valid()
      modifies this`mtime
      ensures Valid() && View() == old(View()).(dev := old(DeviceView()).(mtime := old(mtime) + 1))
    {
      hide PagedByte;
      mtime := mtime + 1;
    }

    /** A keyboard character, kept only when none is pending. */
    method Poll(c: bv32)
      requires Valid()
      modifies this`uartIn
      ensures Valid() && View() == old(View()).(dev := Mmio.Poll(old(DeviceView()), c))
    {
      hide PagedByte;
      if uartIn == Mmio.NO_INPUT {
        uartIn := c;
      }
    }

    method Reset()
      requires Valid()
      modifies this`pages, this`ram, this`currentSatp
      ensures Valid() && disk == old(disk) && fresh(Footprint() - old(Footprint()))
      ensures View() == old(View()).(ram := Bus.Zeroes(), satp := 0)
    {
      pages := map[];
      ram := Bus.Zeroes();
      currentSatp := 0;
    }
  }
}
