/** Loads and stores with translation off. */
module BareMemory {
  import opened Words
  import Bus
  import Mmio

  /** All four bytes are RAM to a load. */
  predicate IsRamWord(a: bv32) {
    !Mmio.Readable(a) && !Mmio.Readable(a + 1) && !Mmio.Readable(a + 2) && !Mmio.Readable(a + 3)
  }

  lemma BareTranslate(m: Bus.Mem, h: Bus.Hart, v: bv32, kind: Bus.AccessType)
    requires Bus.IsBare(m.satp, h, Bus.Store) && kind != Bus.InstructionFetch
    ensures Bus.Translate(m, h, v, kind) == Bus.Done(v, m)
  {
    hide Bus.Frame, Bus.Compose;
  }

  lemma Read8Ram(m: Bus.Mem, h: Bus.Hart, x: bv32)
    requires Bus.IsBare(m.satp, h, Bus.Store) && !Mmio.Readable(x)
    ensures Bus.Read8(m, h, x) == Bus.Done(m.ram(x), m)
  {
    hide Bus.IsBare, Bus.Translate, Mmio.Read, Mmio.Readable;
    BareTranslate(m, h, x, Bus.Load);
    Mmio.Claims(m.dev, x, 0);
  }

  /** A load of a RAM word gives the word, straddling a page or not. */
  lemma Read32Ram(m: Bus.Mem, h: Bus.Hart, a: bv32)
    requires Bus.IsBare(m.satp, h, Bus.Store) && IsRamWord(a)
    ensures Bus.Read32(m, h, a, false) == Bus.Done(Bus.GetWord(m.ram, a), m)
  {
    hide Bus.IsBare, Bus.Translate, Bus.Read8, Mmio.Readable, Mmio.Read, FromBytes, Bus.Straddles;
    if Bus.Straddles(a, 4) {
      Read8Ram(m, h, a);
      Read8Ram(m, h, a + 1);
      Read8Ram(m, h, a + 2);
      Read8Ram(m, h, a + 3);
    } else {
      BareTranslate(m, h, a, Bus.Load);
      Mmio.Claims(m.dev, a, 0);
    }
  }
}
