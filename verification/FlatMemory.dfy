/** With translation off and away from the devices, the memory system is a flat array of 2^32
    bytes: any sequence of loads and stores, straddling or wrapping, gets the answers of the array. */
module FlatMemory {
  import opened BareMemory
  import opened Bus
  import opened Words
  import Mmio

  /** A load or a store of 8, 16 or 32 bits. */
  datatype Operation =
    | Load8(address: bv32)
    | Load16(address: bv32)
    | Load32(address: bv32)
    | Store8(address: bv32, byte: bv8)
    | Store16(address: bv32, value: bv32)
    | Store32(address: bv32, value: bv32)

  predicate IsRamHalf(a: bv32) {
    !Mmio.Readable(a) && !Mmio.Readable(a + 1)
  }

  /** All bytes of the access are RAM to loads and stores. */
  predicate InRam(op: Operation) {
    match op
    case Load8(a) => !Mmio.Readable(a)
    case Store8(a, _) => !Mmio.Readable(a)
    case Load16(a) => IsRamHalf(a)
    case Store16(a, _) => IsRamHalf(a)
    case Load32(a) => IsRamWord(a)
    case Store32(a, _) => IsRamWord(a)
  }

  /** The flat array's answer to a load; a store answers 0. */
  function Answer(ram: Ram, op: Operation): bv32 {
    match op
    case Load8(a) => ram(a) as bv32
    case Load16(a) => GetHalf(ram, a)
    case Load32(a) => GetWord(ram, a)
    case _ => 0
  }

  /** The flat array after an operation. */
  function After(ram: Ram, op: Operation): Ram {
    match op
    case Store8(a, b) => SetByte(ram, a, b)
    case Store16(a, v) => SetHalf(ram, a, v)
    case Store32(a, v) => SetWord(ram, a, v)
    case _ => ram
  }

  function Bytes(r: Access<bv8>): Access<bv32> {
    match r
    case Done(b, m) => Done(b as bv32, m)
    case PageFault(a, k, m) => PageFault(a, k, m)
  }

  function Units(r: Access<()>): Access<bv32> {
    match r
    case Done(_, m) => Done(0, m)
    case PageFault(a, k, m) => PageFault(a, k, m)
  }

  /** The same operation on the memory system. */
  function Perform(m: Mem, h: Hart, op: Operation): Access<bv32> {
    match op
    case Load8(a) => Bytes(Read8(m, h, a))
    case Load16(a) => Read16(m, h, a)
    case Load32(a) => Read32(m, h, a, false)
    case Store8(a, b) => Units(Write8(m, h, a, b))
    case Store16(a, v) => Units(Write16(m, h, a, v))
    case Store32(a, v) => Units(Write32(m, h, a, v))
  }

  lemma NotWritable(a: bv32)
    requires !Mmio.Readable(a)
    ensures !Mmio.Writable(a)
  {
    hide Mmio.Writable;
  }

  lemma Read16Ram(m: Mem, h: Hart, a: bv32)
    requires IsBare(m.satp, h, Store) && IsRamHalf(a)
    ensures Read16(m, h, a) == Done(GetHalf(m.ram, a), m)
  {
    hide IsBare, Translate, Read8, Mmio.Readable, Mmio.Read, FromHalf, Straddles;
    if Straddles(a, 2) {
      Read8Ram(m, h, a);
      Read8Ram(m, h, a + 1);
    } else {
      BareTranslate(m, h, a, Load);
      Mmio.Claims(m.dev, a, 0);
    }
  }

  lemma Write8Ram(m: Mem, h: Hart, a: bv32, b: bv8)
    requires IsBare(m.satp, h, Store) && !Mmio.Readable(a)
    ensures Write8(m, h, a, b) == Done((), m.(ram := SetByte(m.ram, a, b)))
  {
    NotWritable(a);
    hide IsBare, Translate, Mmio.Readable, Mmio.Writable, Mmio.Write, SetByte;
    BareTranslate(m, h, a, Store);
    Mmio.Claims(m.dev, a, b as bv32);
  }

  lemma Write16Ram(m: Mem, h: Hart, a: bv32, v: bv32)
    requires IsBare(m.satp, h, Store) && IsRamHalf(a)
    ensures Write16(m, h, a, v) == Done((), m.(ram := SetHalf(m.ram, a, v)))
  {
    NotWritable(a);
    hide IsBare, Translate, Mmio.Readable, Mmio.Writable, Mmio.Write, SetByte, Write8, Straddles, ByteOf;
    if Straddles(a, 2) {
      var m1 := m.(ram := SetByte(m.ram, a, ByteOf(v, 0)));
      Write8Ram(m, h, a, ByteOf(v, 0));
      Write8Ram(m1, h, a + 1, ByteOf(v, 1));
    } else {
      BareTranslate(m, h, a, Store);
      Mmio.Claims(m.dev, a, v & 0xFFFF);
    }
  }

  lemma Write32BytesRam(m: Mem, h: Hart, a: bv32, v: bv32)
    requires IsBare(m.satp, h, Store) && IsRamWord(a)
    ensures Write32Bytes(m, h, a, v) == Done((), m.(ram := SetWord(m.ram, a, v)))
  {
    hide IsBare, Mmio.Readable, SetByte, Write8, ByteOf;
    var m1 := m.(ram := SetByte(m.ram, a, ByteOf(v, 0)));
    var m2 := m.(ram := SetByte(m1.ram, a + 1, ByteOf(v, 1)));
    var m3 := m.(ram := SetByte(m2.ram, a + 2, ByteOf(v, 2)));
    Write8Ram(m, h, a, ByteOf(v, 0));
    Write8Ram(m1, h, a + 1, ByteOf(v, 1));
    Write8Ram(m2, h, a + 2, ByteOf(v, 2));
    Write8Ram(m3, h, a + 3, ByteOf(v, 3));
  }

  lemma Write32Ram(m: Mem, h: Hart, a: bv32, v: bv32)
    requires IsBare(m.satp, h, Store) && IsRamWord(a)
    ensures Write32(m, h, a, v) == Done((), m.(ram := SetWord(m.ram, a, v)))
  {
    NotWritable(a);
    hide IsBare, Translate, Mmio.Readable, Mmio.Writable, Mmio.Write, SetWord, Write32Bytes, Straddles;
    if Straddles(a, 4) {
      Write32BytesRam(m, h, a, v);
    } else {
      BareTranslate(m, h, a, Store);
      Mmio.Claims(m.dev, a, v);
    }
  }

  lemma PerformIsFlat(m: Mem, h: Hart, op: Operation)
    requires IsBare(m.satp, h, Store) && InRam(op)
    ensures Perform(m, h, op) == Done(Answer(m.ram, op), m.(ram := After(m.ram, op)))
  {
    hide IsBare, Mmio.Readable, IsRamHalf, IsRamWord, Read8, Read16, Read32, Write8, Write16, Write32, GetHalf, GetWord, SetByte, SetHalf, SetWord;
    match op
    case Load8(a) => Read8Ram(m, h, a);
    case Load16(a) => Read16Ram(m, h, a);
    case Load32(a) => Read32Ram(m, h, a);
    case Store8(a, b) => Write8Ram(m, h, a, b);
    case Store16(a, v) => Write16Ram(m, h, a, v);
    case Store32(a, v) => Write32Ram(m, h, a, v);
  }

  /** The answers of a sequence of operations, and the memory system after it; None when one faults. */
  function PerformAll(m: Mem, h: Hart, ops: seq<Operation>): Mmio.Option<(seq<bv32>, Mem)>
    decreases |ops|
  {
    if ops == [] then Mmio.Some(([], m))
    else
      match Perform(m, h, ops[0])
      case PageFault(_, _, _) => Mmio.None
      case Done(answer, m1) =>
        match PerformAll(m1, h, ops[1..])
        case None => Mmio.None
        case Some((answers, m2)) => Mmio.Some(([answer] + answers, m2))
  }

  function Answers(ram: Ram, ops: seq<Operation>): seq<bv32>
    decreases |ops|
  {
    if ops == [] then [] else [Answer(ram, ops[0])] + Answers(After(ram, ops[0]), ops[1..])
  }

  function AfterAll(ram: Ram, ops: seq<Operation>): Ram
    decreases |ops|
  {
    if ops == [] then ram else AfterAll(After(ram, ops[0]), ops[1..])
  }

  /** Every sequence of loads and stores of RAM gets the flat array's little-endian answers and
      leaves the flat array's contents, with the devices untouched. */
  lemma {:induction false} SequenceIsFlat(m: Mem, h: Hart, ops: seq<Operation>)
    requires IsBare(m.satp, h, Store) && forall i :: 0 <= i < |ops| ==> InRam(ops[i])
    ensures PerformAll(m, h, ops) == Mmio.Some((Answers(m.ram, ops), m.(ram := AfterAll(m.ram, ops))))
    decreases |ops|
  {
    hide IsBare, InRam, Perform, Answer, After;
    if ops != [] {
      PerformIsFlat(m, h, ops[0]);
      SequenceIsFlat(m.(ram := After(m.ram, ops[0])), h, ops[1..]);
    }
  }
}
