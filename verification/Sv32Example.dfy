/** A memory on which the unrolled walk and the manual's walk part ways. */
module Sv32Example {
  import opened Bus
  import opened RamFacts
  import opened Sv32Manual
  import opened Words
  import Csr
  import Mmio
  import SdCard

  /** Root table at 0, its entry 0 writable only and pointing at 0x1000; there a leaf with
      every right for physical page 5. */
  const WRITE_ONLY: bv32 := 0x0000_0405
  const LEAF: bv32 := 0x0000_14DF

  function ExampleMem(): Mem {
    var spi := SdCard.Spi(0, 0, 0, 0, 0, 0, 0, false, [], false);
    Mem(SetWord(SetWord(Zeroes(), 0x1000, LEAF), 0, WRITE_ONLY),
        Mmio.Device(0, 0, 0, [0, 0, 0, 0, 0, 0, 0, 0], false, spi), 0x8000_0000)
  }

  lemma ExampleWords()
    ensures GetWord(ExampleMem().ram, 0) == WRITE_ONLY && GetWord(ExampleMem().ram, 0x1000) == LEAF
  {
    ReadBack(SetWord(Zeroes(), 0x1000, LEAF), 0, WRITE_ONLY);
    ReadBack(Zeroes(), 0x1000, LEAF);
    SecondStays(SetWord(Zeroes(), 0x1000, LEAF));
    hide GetWord, SetWord;
  }

  lemma SecondStays(ram: Ram)
    ensures GetWord(SetWord(ram, 0, WRITE_ONLY), 0x1000) == GetWord(ram, 0x1000)
  {
    hide ByteOf, FromBytes;
  }

  lemma ExampleEntries()
    ensures RootEntry(ExampleMem(), 0) == WRITE_ONLY && SecondEntry(ExampleMem(), 0) == LEAF
  {
    assert Pte1Address(0x8000_0000, 0) == 0 && Pte0Address(WRITE_ONLY, 0) == 0x1000;
    assert !Mmio.Readable(0) && !Mmio.Readable(0x1000);
    ExampleWords();
    hide GetWord, SetWord, Mmio.Read, Mmio.Readable, Pte1Address, Pte0Address;
    Mmio.Claims(ExampleMem().dev, 0, 0);
    Mmio.Claims(ExampleMem().dev, 0x1000, 0);
  }

  /** A user load of address 0 translates, where the manual's walk faults. */
  lemma WriteOnlyEntryTranslates()
    ensures var h := Hart(Csr.USER, 0);
      Translate(ExampleMem(), h, 0, Load).Done?
      && ManualTranslate(ExampleMem(), EffectiveMode(h, Load), h.mstatus, 0, Load).0 == Mmio.None
  {
    ExampleEntries();
    assert WriteOnly(WRITE_ONLY) && LeafOk(Csr.USER, 0, LEAF, Load, 0);
    assert EffectiveMode(Hart(Csr.USER, 0), Load) == Csr.USER && !IsBare(0x8000_0000, Hart(Csr.USER, 0), Load);
    assert (0 as bv32) & MSTATUS_MXR == 0;
    hide Frame, ManualTranslate, RootEntry, SecondEntry, LeafOk, WriteOnly, Compose;
    WriteOnlyIsFollowed(ExampleMem(), Csr.USER, 0, 0, Load);
  }
}
