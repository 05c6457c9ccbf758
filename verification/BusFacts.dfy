/** Frame facts of the bus: what loads and stores leave alone. */
module BusFacts {
  import opened Bus
  import opened Words
  import Csr
  import Mmio

  /** RAM and satp are the same; a device may have seen a load. */
  ghost predicate OnlyDevice(m: Mem, n: Mem) {
    n.ram == m.ram && n.satp == m.satp && n.dev.mtime == m.dev.mtime && n.dev.spi == m.dev.spi
  }

  ghost predicate SameSatp(m: Mem, n: Mem) {
    n.satp == m.satp && n.dev.mtime == m.dev.mtime
  }

  lemma ReadPhysicalFrame(m: Mem, paddr: bv32)
    ensures OnlyDevice(m, ReadPhysical(m, paddr).1)
  {
    hide Mmio.Read, Mmio.Readable, GetWord;
    Mmio.Claims(m.dev, paddr, 0);
  }

  lemma FrameFrame(m: Mem, mode: Csr.Mode, mstatus: bv32, v: bv32, kind: AccessType)
    ensures OnlyDevice(m, Frame(m, mode, mstatus, v, kind).1)
  {
    hide ReadPhysical, SuperpageFaults, PageFaults, IsLeaf, Pte0Address, Pte1Address;
    var (pte1, m1) := ReadPhysical(m, Pte1Address(m.satp, v));
    ReadPhysicalFrame(m, Pte1Address(m.satp, v));
    ReadPhysicalFrame(m1, Pte0Address(pte1, v));
  }

  lemma TranslateFrame(m: Mem, h: Hart, v: bv32, kind: AccessType)
    ensures OnlyDevice(m, Translate(m, h, v, kind).mem)
    ensures Translate(m, h, v, kind).PageFault? ==>
      Translate(m, h, v, kind).address == v && Translate(m, h, v, kind).kind == kind
  {
    hide IsBare, Frame, Compose, EffectiveMode;
    FrameFrame(m, EffectiveMode(h, kind), h.mstatus, v, kind);
  }

  lemma Read8Frame(m: Mem, h: Hart, v: bv32)
    ensures OnlyDevice(m, Read8(m, h, v).mem)
    ensures Read8(m, h, v).PageFault? ==> Read8(m, h, v).address == v && Read8(m, h, v).kind == Load
  {
    hide Translate, Mmio.Read, Mmio.Readable;
    TranslateFrame(m, h, v, Load);
    var t := Translate(m, h, v, Load);
    if t.Done? {
      Mmio.Claims(t.mem.dev, t.value, 0);
    }
  }

  lemma Read16Frame(m: Mem, h: Hart, v: bv32)
    ensures OnlyDevice(m, Read16(m, h, v).mem)
    ensures Read16(m, h, v).PageFault? ==> Read16(m, h, v).kind == Load
    ensures Read16(m, h, v).PageFault? && !Straddles(v, 2) ==> Read16(m, h, v).address == v
  {
    hide Translate, Read8, Mmio.Read, Mmio.Readable, Straddles, GetHalf, FromHalf;
    if Straddles(v, 2) {
      Read8Frame(m, h, v);
      Read8Frame(Read8(m, h, v).mem, h, v + 1);
    } else {
      TranslateFrame(m, h, v, Load);
      var t := Translate(m, h, v, Load);
      if t.Done? {
        Mmio.Claims(t.mem.dev, t.value, 0);
      }
    }
  }

  lemma Read32BytesFrame(m: Mem, h: Hart, v: bv32)
    ensures OnlyDevice(m, Read32Bytes(m, h, v).mem)
    ensures Read32Bytes(m, h, v).PageFault? ==> Read32Bytes(m, h, v).kind == Load
  {
    hide Read8, FromBytes;
    var m1 := Read8(m, h, v).mem;
    var m2 := Read8(m1, h, v + 1).mem;
    var m3 := Read8(m2, h, v + 2).mem;
    Read8Frame(m, h, v);
    Read8Frame(m1, h, v + 1);
    Read8Frame(m2, h, v + 2);
    Read8Frame(m3, h, v + 3);
  }

  lemma Read32Frame(m: Mem, h: Hart, v: bv32, isInstruction: bool)
    ensures OnlyDevice(m, Read32(m, h, v, isInstruction).mem)
    ensures Read32(m, h, v, isInstruction).PageFault? && !Straddles(v, 4) ==>
      Read32(m, h, v, isInstruction).address == v
      && Read32(m, h, v, isInstruction).kind == if isInstruction then InstructionFetch else Load
    ensures Read32(m, h, v, false).PageFault? ==> Read32(m, h, v, false).kind == Load
  {
    hide Translate, Read32Bytes, ReadPhysical, Straddles;
    if Straddles(v, 4) {
      Read32BytesFrame(m, h, v);
    } else {
      var kind := if isInstruction then InstructionFetch else Load;
      TranslateFrame(m, h, v, kind);
      TranslateFrame(m, h, v, Load);
      var t := Translate(m, h, v, kind);
      if t.Done? {
        ReadPhysicalFrame(t.mem, t.value);
      }
    }
  }

  lemma Write8Frame(m: Mem, h: Hart, v: bv32, b: bv8)
    ensures SameSatp(m, Write8(m, h, v, b).mem)
    ensures Write8(m, h, v, b).PageFault? ==>
      Write8(m, h, v, b).address == v && Write8(m, h, v, b).kind == Store && OnlyDevice(m, Write8(m, h, v, b).mem)
  {
    hide Translate, Mmio.Write, Mmio.Writable, SetByte;
    TranslateFrame(m, h, v, Store);
    var t := Translate(m, h, v, Store);
    if t.Done? {
      Mmio.Claims(t.mem.dev, t.value, b as bv32);
    }
  }

  lemma Write16Frame(m: Mem, h: Hart, v: bv32, value: bv32)
    ensures SameSatp(m, Write16(m, h, v, value).mem)
    ensures Write16(m, h, v, value).PageFault? ==> Write16(m, h, v, value).kind == Store
    ensures Write16(m, h, v, value).PageFault? && !Straddles(v, 2) ==>
      Write16(m, h, v, value).address == v && OnlyDevice(m, Write16(m, h, v, value).mem)
  {
    hide Translate, Write8, Mmio.Write, Mmio.Writable, SetHalf, Straddles, ByteOf;
    if Straddles(v, 2) {
      Write8Frame(m, h, v, ByteOf(value, 0));
      Write8Frame(Write8(m, h, v, ByteOf(value, 0)).mem, h, v + 1, ByteOf(value, 1));
    } else {
      TranslateFrame(m, h, v, Store);
      var t := Translate(m, h, v, Store);
      if t.Done? {
        Mmio.Claims(t.mem.dev, t.value, value & 0xFFFF);
      }
    }
  }

  lemma Write32BytesFrame(m: Mem, h: Hart, v: bv32, value: bv32)
    ensures SameSatp(m, Write32Bytes(m, h, v, value).mem)
    ensures Write32Bytes(m, h, v, value).PageFault? ==> Write32Bytes(m, h, v, value).kind == Store
  {
    hide Write8, ByteOf;
    var m1 := Write8(m, h, v, ByteOf(value, 0)).mem;
    var m2 := Write8(m1, h, v + 1, ByteOf(value, 1)).mem;
    var m3 := Write8(m2, h, v + 2, ByteOf(value, 2)).mem;
    Write8Frame(m, h, v, ByteOf(value, 0));
    Write8Frame(m1, h, v + 1, ByteOf(value, 1));
    Write8Frame(m2, h, v + 2, ByteOf(value, 2));
    Write8Frame(m3, h, v + 3, ByteOf(value, 3));
  }

  lemma Write32Frame(m: Mem, h: Hart, v: bv32, value: bv32)
    ensures SameSatp(m, Write32(m, h, v, value).mem)
    ensures Write32(m, h, v, value).PageFault? ==> Write32(m, h, v, value).kind == Store
    ensures Write32(m, h, v, value).PageFault? && !Straddles(v, 4) ==>
      Write32(m, h, v, value).address == v && OnlyDevice(m, Write32(m, h, v, value).mem)
  {
    hide Translate, Write32Bytes, Mmio.Write, Mmio.Writable, SetWord, Straddles;
    if Straddles(v, 4) {
      Write32BytesFrame(m, h, v, value);
    } else {
      TranslateFrame(m, h, v, Store);
      var t := Translate(m, h, v, Store);
      if t.Done? {
        Mmio.Claims(t.mem.dev, t.value, value);
      }
    }
  }
}
