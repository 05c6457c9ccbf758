/** Words that cross a page: read and written byte by byte, until the first byte that faults. */
module Straddling {
  import opened Bus
  import opened BusFacts
  import opened Words
  import Mmio

  function ByteAddress(a: bv32, k: nat): bv32
    requires k < 4
  {
    if k == 0 then a else if k == 1 then a + 1 else if k == 2 then a + 2 else a + 3
  }

  lemma ByteAddresses(a: bv32)
    ensures ByteAddress(a, 0) == a && ByteAddress(a, 1) == a + 1 && ByteAddress(a, 2) == a + 2 && ByteAddress(a, 3) == a + 3
  {
  }

  // ----- loads -----------------------------------------------------------------

  /** The memory system when byte k of the word at `a` is about to be read. */
  function BeforeLoad(m: Mem, h: Hart, a: bv32, k: nat): Mem
    requires k <= 4
  {
    if k == 0 then m else Read8(BeforeLoad(m, h, a, k - 1), h, ByteAddress(a, k - 1)).mem
  }

  /** Byte k can be read, as data. */
  predicate Loads(m: Mem, h: Hart, a: bv32, k: nat)
    requires k < 4
  {
    Translate(BeforeLoad(m, h, a, k), h, ByteAddress(a, k), Load).Done?
  }

  /** The first byte that cannot be read is byte k. */
  ghost predicate FirstUnread(m: Mem, h: Hart, a: bv32, k: nat) {
    k < 4 && !Loads(m, h, a, k) && forall j: nat :: j < k ==> Loads(m, h, a, j)
  }

  function ReadByte(m: Mem, h: Hart, a: bv32, k: nat): Access<bv8>
    requires k < 4
  {
    Read8(BeforeLoad(m, h, a, k), h, ByteAddress(a, k))
  }

  lemma NextLoad(m: Mem, h: Hart, a: bv32, k: nat)
    requires k < 4
    ensures BeforeLoad(m, h, a, k + 1) == ReadByte(m, h, a, k).mem && BeforeLoad(m, h, a, 0) == m
  {
    hide Read8, ByteAddress;
  }

  lemma ReadBytesAre(m: Mem, h: Hart, a: bv32)
    ensures var r0, r1, r2 := ReadByte(m, h, a, 0), ReadByte(m, h, a, 1), ReadByte(m, h, a, 2);
      r0 == Read8(m, h, a) && r1 == Read8(r0.mem, h, a + 1) && r2 == Read8(r1.mem, h, a + 2)
      && ReadByte(m, h, a, 3) == Read8(r2.mem, h, a + 3)
  {
    hide Read8, BeforeLoad, ByteAddress;
    ByteAddresses(a);
    NextLoad(m, h, a, 0);
    NextLoad(m, h, a, 1);
    NextLoad(m, h, a, 2);
  }

  /** The straddling load ends as the first of its bytes that faults, or, completed, as the last. */
  lemma LoadOfBytes(m: Mem, h: Hart, a: bv32)
    ensures var r := Read32Bytes(m, h, a);
      var r0, r1, r2, r3 := ReadByte(m, h, a, 0), ReadByte(m, h, a, 1), ReadByte(m, h, a, 2), ReadByte(m, h, a, 3);
      var last := if r0.PageFault? then r0 else if r1.PageFault? then r1 else if r2.PageFault? then r2 else r3;
      (r.Done? <==> last.Done?) && (r.PageFault? ==> r.address == last.address && r.kind == last.kind)
  {
    hide ReadByte, BeforeLoad, ByteAddress, Read8, FromBytes;
    ReadBytesAre(m, h, a);
  }

  lemma Read8Done(m: Mem, h: Hart, v: bv32)
    ensures Read8(m, h, v).Done? <==> Translate(m, h, v, Load).Done?
    ensures Read8(m, h, v).PageFault? ==> Read8(m, h, v).address == v && Read8(m, h, v).kind == Load
  {
    Read8Frame(m, h, v);
    hide Translate, Mmio.Read;
  }

  lemma LoadsAt(m: Mem, h: Hart, a: bv32, k: nat)
    requires k < 4
    ensures var r := ReadByte(m, h, a, k);
      (r.Done? <==> Loads(m, h, a, k)) && (r.PageFault? ==> r.address == ByteAddress(a, k) && r.kind == Load)
  {
    hide BeforeLoad, Read8, Translate, ByteAddress;
    Read8Done(BeforeLoad(m, h, a, k), h, ByteAddress(a, k));
  }

  lemma FirstUnreadIs(m: Mem, h: Hart, a: bv32, k: nat)
    requires k < 4 && (k > 0 ==> Loads(m, h, a, 0)) && (k > 1 ==> Loads(m, h, a, 1)) && (k > 2 ==> Loads(m, h, a, 2))
    ensures Loads(m, h, a, k) || FirstUnread(m, h, a, k)
  {
    hide Loads;
  }

  /** A straddling load completes if and only if each of its bytes can be read as data, and else it
      faults, as a load, at the first byte that cannot. */
  lemma StraddlingLoad(m: Mem, h: Hart, a: bv32) returns (k: nat)
    ensures var r := Read32Bytes(m, h, a);
      if r.Done? then forall j: nat :: j < 4 ==> Loads(m, h, a, j)
      else FirstUnread(m, h, a, k) && r.address == ByteAddress(a, k) && r.kind == Load
  {
    hide *;
    LoadOfBytes(m, h, a);
    LoadsAt(m, h, a, 0);
    LoadsAt(m, h, a, 1);
    LoadsAt(m, h, a, 2);
    LoadsAt(m, h, a, 3);
    k := if !Loads(m, h, a, 0) then 0 else if !Loads(m, h, a, 1) then 1 else if !Loads(m, h, a, 2) then 2 else 3;
    FirstUnreadIs(m, h, a, k);
  }

  // ----- stores ----------------------------------------------------------------

  /** The memory system when byte k of the word is about to be written. */
  function BeforeStore(m: Mem, h: Hart, a: bv32, value: bv32, k: nat): Mem
    requires k <= 4
  {
    if k == 0 then m
    else Write8(BeforeStore(m, h, a, value, k - 1), h, ByteAddress(a, k - 1), ByteOf(value, k - 1)).mem
  }

  function StoreTarget(m: Mem, h: Hart, a: bv32, value: bv32, k: nat): Access<bv32>
    requires k < 4
  {
    Translate(BeforeStore(m, h, a, value, k), h, ByteAddress(a, k), Store)
  }

  /** Byte k can be written. */
  predicate Stores(m: Mem, h: Hart, a: bv32, value: bv32, k: nat)
    requires k < 4
  {
    StoreTarget(m, h, a, value, k).Done?
  }

  /** The first byte that cannot be written is byte k. */
  ghost predicate FirstUnwritten(m: Mem, h: Hart, a: bv32, value: bv32, k: nat) {
    k < 4 && !Stores(m, h, a, value, k) && forall j: nat :: j < k ==> Stores(m, h, a, value, j)
  }

  function WriteByte(m: Mem, h: Hart, a: bv32, value: bv32, k: nat): Access<()>
    requires k < 4
  {
    Write8(BeforeStore(m, h, a, value, k), h, ByteAddress(a, k), ByteOf(value, k))
  }

  lemma NextStore(m: Mem, h: Hart, a: bv32, value: bv32, k: nat)
    requires k < 4
    ensures BeforeStore(m, h, a, value, k + 1) == WriteByte(m, h, a, value, k).mem && BeforeStore(m, h, a, value, 0) == m
  {
    hide Write8, ByteAddress, ByteOf;
  }

  lemma WriteBytesAre(m: Mem, h: Hart, a: bv32, value: bv32)
    ensures var r0, r1, r2 := WriteByte(m, h, a, value, 0), WriteByte(m, h, a, value, 1), WriteByte(m, h, a, value, 2);
      r0 == Write8(m, h, a, ByteOf(value, 0)) && r1 == Write8(r0.mem, h, a + 1, ByteOf(value, 1))
      && r2 == Write8(r1.mem, h, a + 2, ByteOf(value, 2))
      && WriteByte(m, h, a, value, 3) == Write8(r2.mem, h, a + 3, ByteOf(value, 3))
  {
    hide Write8, BeforeStore, ByteAddress, ByteOf;
    ByteAddresses(a);
    NextStore(m, h, a, value, 0);
    NextStore(m, h, a, value, 1);
    NextStore(m, h, a, value, 2);
  }

  /** The straddling store ends as the first of its bytes that faults, or as the last. */
  lemma StoreOfBytes(m: Mem, h: Hart, a: bv32, value: bv32)
    ensures var r0, r1 := WriteByte(m, h, a, value, 0), WriteByte(m, h, a, value, 1);
      var r2, r3 := WriteByte(m, h, a, value, 2), WriteByte(m, h, a, value, 3);
      Write32Bytes(m, h, a, value)
        == (if r0.PageFault? then r0 else if r1.PageFault? then r1 else if r2.PageFault? then r2 else r3)
      && r3.mem == BeforeStore(m, h, a, value, 4)
  {
    hide WriteByte, BeforeStore, ByteAddress, Write8, ByteOf;
    WriteBytesAre(m, h, a, value);
    NextStore(m, h, a, value, 3);
  }

  lemma Write8Done(m: Mem, h: Hart, v: bv32, b: bv8)
    ensures Write8(m, h, v, b).Done? <==> Translate(m, h, v, Store).Done?
    ensures Write8(m, h, v, b).PageFault? ==> Write8(m, h, v, b).address == v && OnlyDevice(m, Write8(m, h, v, b).mem)
  {
    Write8Frame(m, h, v, b);
    hide Translate, Mmio.Write, SetByte;
  }

  lemma StoresAt(m: Mem, h: Hart, a: bv32, value: bv32, k: nat)
    requires k < 4
    ensures var before := BeforeStore(m, h, a, value, k);
      var r := WriteByte(m, h, a, value, k);
      (r.Done? <==> Stores(m, h, a, value, k))
      && (r.PageFault? ==> r.address == ByteAddress(a, k) && OnlyDevice(before, r.mem))
  {
    hide BeforeStore, Write8, Translate, ByteAddress, ByteOf, OnlyDevice;
    Write8Done(BeforeStore(m, h, a, value, k), h, ByteAddress(a, k), ByteOf(value, k));
  }

  lemma FirstUnwrittenIs(m: Mem, h: Hart, a: bv32, value: bv32, k: nat)
    requires k < 4 && (k > 0 ==> Stores(m, h, a, value, 0)) && (k > 1 ==> Stores(m, h, a, value, 1))
    requires k > 2 ==> Stores(m, h, a, value, 2)
    ensures Stores(m, h, a, value, k) || FirstUnwritten(m, h, a, value, k)
  {
    hide Stores;
  }

  /** A straddling store completes if and only if each of its bytes can be written. Else it faults
      at the first byte that cannot, and leaves exactly the bytes before that one written. */
  lemma StraddlingStore(m: Mem, h: Hart, a: bv32, value: bv32) returns (k: nat)
    ensures var r := Write32Bytes(m, h, a, value);
      if r.Done? then (forall j: nat :: j < 4 ==> Stores(m, h, a, value, j)) && r.mem == BeforeStore(m, h, a, value, 4)
      else
        FirstUnwritten(m, h, a, value, k) && r.address == ByteAddress(a, k) && OnlyDevice(BeforeStore(m, h, a, value, k), r.mem)
  {
    hide *;
    StoreOfBytes(m, h, a, value);
    StoresAt(m, h, a, value, 0);
    StoresAt(m, h, a, value, 1);
    StoresAt(m, h, a, value, 2);
    StoresAt(m, h, a, value, 3);
    k := if !Stores(m, h, a, value, 0) then 0 else if !Stores(m, h, a, value, 1) then 1
         else if !Stores(m, h, a, value, 2) then 2 else 3;
    FirstUnwrittenIs(m, h, a, value, k);
  }

  /** What writing byte k means: that byte of RAM where its address translates to, unless a device
      is there, and no other. */
  lemma StoredByte(m: Mem, h: Hart, a: bv32, value: bv32, k: nat)
    requires k < 4 && Stores(m, h, a, value, k)
    ensures var before, p := BeforeStore(m, h, a, value, k), StoreTarget(m, h, a, value, k).value;
      BeforeStore(m, h, a, value, k + 1).ram == if Mmio.Writable(p) then before.ram else SetByte(before.ram, p, ByteOf(value, k))
  {
    var before := BeforeStore(m, h, a, value, k);
    assert BeforeStore(m, h, a, value, k + 1) == Write8(before, h, ByteAddress(a, k), ByteOf(value, k)).mem;
    Write8Ram(before, h, ByteAddress(a, k), ByteOf(value, k));
    hide BeforeStore, Write8, Translate, ByteAddress, ByteOf, SetByte, Mmio.Writable;
  }

  lemma Write8Ram(m: Mem, h: Hart, v: bv32, b: bv8)
    requires Translate(m, h, v, Store).Done?
    ensures var p := Translate(m, h, v, Store).value;
      Write8(m, h, v, b).mem.ram == if Mmio.Writable(p) then m.ram else SetByte(m.ram, p, b)
  {
    hide Translate, Mmio.Write, Mmio.Writable, SetByte;
    var t := Translate(m, h, v, Store);
    TranslateFrame(m, h, v, Store);
    Mmio.Claims(t.mem.dev, t.value, b as bv32);
  }
}
