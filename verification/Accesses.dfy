/** What loads put in rd and stores put in memory, in terms of the bytes of RAM. */
module Accesses {
  import opened Bus
  import opened Computes
  import opened ExecFacts
  import opened Isa
  import opened Machine
  import opened Numbers
  import opened Words
  import Alu
  import Arithmetic
  import BusFacts
  import Faults
  import LrScAlias
  import Mmio
  import RamFacts
  import Ranges

  /** Byte k from `p`, as a number. */
  function At(ram: Ram, p: bv32, k: bv32): nat {
    ByteVal(ram(p + k))
  }

  /** The unsigned number in the `LoadSize(op)` bytes from `p`, least significant first. */
  function Unsigned(ram: Ram, op: LOp, p: bv32): nat {
    match op
    case LB | LBU => At(ram, p, 0)
    case LH | LHU => At(ram, p, 0) + 0x100 * At(ram, p, 1)
    case LW => At(ram, p, 0) + 0x100 * At(ram, p, 1) + 0x1_0000 * At(ram, p, 2) + 0x100_0000 * At(ram, p, 3)
  }

  /** A number of so many values read in two's complement. */
  function TwosComplement(n: nat, values: nat): int {
    if 2 * n < values then n else n - values
  }

  /** LB, LH and LW give the signed number, LBU and LHU the unsigned one. */
  ghost predicate Loaded(ram: Ram, op: LOp, p: bv32, value: bv32) {
    match op
    case LB => ToInt(value) == TwosComplement(Unsigned(ram, op, p), 0x100)
    case LH => ToInt(value) == TwosComplement(Unsigned(ram, op, p), 0x1_0000)
    case LW => ToInt(value) == TwosComplement(Unsigned(ram, op, p), TWO_32)
    case LBU => ToNat(value) == Unsigned(ram, op, p)
    case LHU => ToNat(value) == Unsigned(ram, op, p)
  }

  // ----- numbers of extended words ---------------------------------------------------

  lemma BytesNumber(b0: bv8, b1: bv8, b2: bv8, b3: bv8)
    ensures ToNat(FromBytes(b0, b1, b2, b3))
        == ByteVal(b0) + 0x100 * ByteVal(b1) + 0x1_0000 * ByteVal(b2) + 0x100_0000 * ByteVal(b3)
  {
    hide ByteVal, FromBytes, ByteOf;
    BytesRoundTrip(b0, b1, b2, b3);
  }

  lemma Extremes()
    ensures ByteVal(0) == 0 && ByteVal(0xFF) == 0xFF
  {
  }

  lemma ByteSign(b: bv8)
    ensures b & 0x80 != 0 <==> 2 * ByteVal(b) >= 0x100
  {
    SignNibble(HighNibble(b));
    assert b & 0x80 != 0 <==> HighNibble(b) >= 8;
    hide HighNibble, LowNibble, NibbleVal;
  }

  lemma SignNibble(h: bv4)
    ensures h >= 8 <==> NibbleVal(h) >= 8
  {
  }

  lemma ExtendedBytes(b0: bv8, b1: bv8)
    ensures Alu.SignExtend8(b0) == if b0 & 0x80 != 0 then FromBytes(b0, 0xFF, 0xFF, 0xFF) else FromBytes(b0, 0, 0, 0)
    ensures b0 as bv32 == FromBytes(b0, 0, 0, 0) && FromHalf(b0, b1) == FromBytes(b0, b1, 0, 0)
    ensures Alu.SignExtend16(FromHalf(b0, b1)) == if b1 & 0x80 != 0
        then FromBytes(b0, b1, 0xFF, 0xFF) else FromBytes(b0, b1, 0, 0)
  {
  }

  lemma TopByteSign(b0: bv8, b1: bv8, b2: bv8, b3: bv8)
    ensures Ranges.Sign(FromBytes(b0, b1, b2, b3)) <==> b3 & 0x80 != 0
  {
  }

  /** The signed number of four bytes. */
  lemma SignedBytes(b0: bv8, b1: bv8, b2: bv8, b3: bv8)
    ensures var n := ByteVal(b0) + 0x100 * ByteVal(b1) + 0x1_0000 * ByteVal(b2) + 0x100_0000 * ByteVal(b3);
      ToInt(FromBytes(b0, b1, b2, b3)) == TwosComplement(n, TWO_32)
  {
    hide ByteVal, FromBytes, ToNat, ToInt, Ranges.Sign;
    BytesNumber(b0, b1, b2, b3);
    TopByteSign(b0, b1, b2, b3);
    ByteSign(b3);
    Ranges.ToIntIs(FromBytes(b0, b1, b2, b3));
  }

  lemma ByteLoaded(b: bv8)
    ensures ToInt(Alu.SignExtend8(b)) == TwosComplement(ByteVal(b), 0x100) && ToNat(b as bv32) == ByteVal(b)
  {
    ExtendedBytes(b, 0);
    ByteSign(b);
    Extremes();
    hide ByteVal, FromBytes, FromHalf, ToNat, ToInt, Alu.SignExtend8, Alu.SignExtend16;
    BytesNumber(b, 0, 0, 0);
    SignedBytes(b, 0, 0, 0);
    SignedBytes(b, 0xFF, 0xFF, 0xFF);
  }

  lemma HalfLoaded(b0: bv8, b1: bv8)
    ensures var n := ByteVal(b0) + 0x100 * ByteVal(b1);
      ToInt(Alu.SignExtend16(FromHalf(b0, b1))) == TwosComplement(n, 0x1_0000) && ToNat(FromHalf(b0, b1)) == n
  {
    ExtendedBytes(b0, b1);
    ByteSign(b1);
    Extremes();
    hide ByteVal, FromBytes, FromHalf, ToNat, ToInt, Alu.SignExtend8, Alu.SignExtend16;
    BytesNumber(b0, b1, 0, 0);
    SignedBytes(b0, b1, 0, 0);
    SignedBytes(b0, b1, 0xFF, 0xFF);
  }

  // ----- loads --------------------------------------------------------------------------

  lemma Consecutive(ram: Ram, p: bv32)
    ensures At(ram, p, 0) == ByteVal(ram(p)) && At(ram, p, 1) == ByteVal(ram(p + 1))
    ensures At(ram, p, 2) == ByteVal(ram(p + 2)) && At(ram, p, 3) == ByteVal(ram(p + 3))
  {
    assert p + 0 == p;
    hide ByteVal;
  }

  lemma WordLoaded(ram: Ram, p: bv32)
    ensures Loaded(ram, LW, p, GetWord(ram, p))
  {
    hide ByteVal, FromBytes, ToInt, At;
    Consecutive(ram, p);
    SignedBytes(ram(p), ram(p + 1), ram(p + 2), ram(p + 3));
  }

  lemma HalvesLoaded(ram: Ram, p: bv32)
    ensures Loaded(ram, LH, p, Alu.SignExtend16(GetHalf(ram, p))) && Loaded(ram, LHU, p, GetHalf(ram, p))
  {
    hide ByteVal, FromHalf, ToNat, ToInt, At, Alu.SignExtend16;
    Consecutive(ram, p);
    HalfLoaded(ram(p), ram(p + 1));
  }

  lemma BytesLoaded(ram: Ram, p: bv32)
    ensures Loaded(ram, LB, p, Alu.SignExtend8(ram(p))) && Loaded(ram, LBU, p, ram(p) as bv32)
  {
    hide ByteVal, ToNat, ToInt, At, Alu.SignExtend8;
    Consecutive(ram, p);
    ByteLoaded(ram(p));
  }

  /** The access at `v` stays inside its page and translates to `p`, where no device answers. */
  ghost predicate ReadsRam(s: State, v: bv32, size: bv32, p: bv32) {
    var t := Translate(s.mem, HartOf(s), v, AccessType.Load);
    !Straddles(v, size) && t.Done? && t.value == p && !Mmio.Readable(p)
  }

  lemma Reads8(m: Mem, h: Hart, v: bv32)
    requires var t := Translate(m, h, v, AccessType.Load); t.Done? && !Mmio.Readable(t.value)
    ensures var t := Translate(m, h, v, AccessType.Load); Read8(m, h, v) == Done(m.ram(t.value), t.mem) && t.mem.ram == m.ram
  {
    hide Translate, Mmio.Read, Mmio.Readable;
    BusFacts.TranslateFrame(m, h, v, AccessType.Load);
    var t := Translate(m, h, v, AccessType.Load);
    Mmio.Claims(t.mem.dev, t.value, 0);
  }

  lemma Reads16(m: Mem, h: Hart, v: bv32)
    requires var t := Translate(m, h, v, AccessType.Load); t.Done? && !Mmio.Readable(t.value) && !Straddles(v, 2)
    ensures var t := Translate(m, h, v, AccessType.Load);
      Read16(m, h, v) == Done(GetHalf(m.ram, t.value), t.mem) && t.mem.ram == m.ram
  {
    hide Translate, Mmio.Read, Mmio.Readable, GetHalf, Straddles;
    BusFacts.TranslateFrame(m, h, v, AccessType.Load);
    var t := Translate(m, h, v, AccessType.Load);
    Mmio.Claims(t.mem.dev, t.value, 0);
  }

  lemma Reads32(m: Mem, h: Hart, v: bv32)
    requires var t := Translate(m, h, v, AccessType.Load); t.Done? && !Mmio.Readable(t.value) && !Straddles(v, 4)
    ensures var t := Translate(m, h, v, AccessType.Load);
      Read32(m, h, v, false) == Done(GetWord(m.ram, t.value), t.mem) && t.mem.ram == m.ram
  {
    hide Translate, Mmio.Read, Mmio.Readable, GetWord, Straddles;
    BusFacts.TranslateFrame(m, h, v, AccessType.Load);
    var t := Translate(m, h, v, AccessType.Load);
    Mmio.Claims(t.mem.dev, t.value, 0);
  }

  lemma AccessLoads(s: State, op: LOp, v: bv32, p: bv32)
    requires ReadsRam(s, v, Faults.LoadSize(op), p)
    ensures var r, t := LoadAccess(s.mem, HartOf(s), op, v), Translate(s.mem, HartOf(s), v, AccessType.Load);
      r.Done? && Loaded(s.mem.ram, op, p, r.value) && r.mem == t.mem && t.mem.ram == s.mem.ram
  {
    hide Translate, Read8, Read16, Read32, Mmio.Readable, Straddles, HartOf, Loaded, GetWord, GetHalf, Alu.SignExtend8,
         Alu.SignExtend16;
    match op
    case LB | LBU => Reads8(s.mem, HartOf(s), v); BytesLoaded(s.mem.ram, p);
    case LH | LHU => Reads16(s.mem, HartOf(s), v); HalvesLoaded(s.mem.ram, p);
    case LW => Reads32(s.mem, HartOf(s), v); WordLoaded(s.mem.ram, p);
  }

  lemma SameAddress(base: bv32, offset: bv32, v: bv32)
    requires IsAt(base, offset, v)
    ensures v == Offset(base, offset)
  {
    hide ToNat, ToInt, Offset;
    OffsetIs(base, offset);
    NumberDetermines(v, Offset(base, offset));
  }

  lemma PutsOver(s: State, m: Mem, rd: bv5, value: bv32)
    ensures OnlyPuts(s, rd, value, WriteRegister(s.(mem := m), rd, value))
  {
  }

  /** A load at rs1 plus its offset, inside a page, from RAM, with translation on or off: rd gets the
      number in the bytes there, extended as the instruction says, and no other register, no byte of
      RAM and nothing of the hart changes. */
  lemma LoadInstruction(s: State, op: LOp, rd: bv5, rs1: bv5, imm: bv32, word: bv32, v: bv32, p: bv32) returns (value: bv32)
    requires IsAt(s.regs(rs1), imm, v) && ReadsRam(s, v, Faults.LoadSize(op), p)
    ensures Loaded(s.mem.ram, op, p, value)
    ensures var o := Exec(s, Instr.Load(op, rd, rs1, imm), word);
      o.Next? && OnlyPuts(s, rd, value, o.state) && o.state == s.(regs := o.state.regs, mem := o.state.mem)
      && BusFacts.OnlyDevice(s.mem, o.state.mem)
  {
    hide Exec, LoadAccess, Translate, IsAt, ReadsRam, HartOf, Loaded, Offset, WriteRegister, OnlyPuts, BusFacts.OnlyDevice;
    SameAddress(s.regs(rs1), imm, v);
    ExecOfLoad(s, op, rd, rs1, imm, word);
    AccessLoads(s, op, v, p);
    LoadAccessFrame(s.mem, HartOf(s), op, v);
    var r := LoadAccess(s.mem, HartOf(s), op, v);
    value := r.value;
    PutsOver(s, r.mem, rd, value);
    Puts(s.(mem := r.mem), rd, value);
  }

  // ----- stores -------------------------------------------------------------------------

  function StoredBytes(op: SOp): bv32 {
    match op case SB => 1 case SH => 2 case SW => 4
  }

  /** From `ram` to `after` the bytes from `p` have become the low bytes of `value`, least significant
      first, and no other byte has changed. */
  ghost predicate Stored(ram: Ram, after: Ram, op: SOp, p: bv32, value: bv32) {
    && At(after, p, 0) == ToNat(value) % 0x100
    && (op != SB ==> At(after, p, 1) == ToNat(value) / 0x100 % 0x100)
    && (op == SW ==> At(after, p, 2) == ToNat(value) / 0x1_0000 % 0x100 && At(after, p, 3) == ToNat(value) / 0x100_0000)
    && (forall x: bv32 ::
          x != p && (op != SB ==> x != p + 1) && (op == SW ==> x != p + 2 && x != p + 3) ==> after(x) == ram(x))
  }

  lemma BytesOfNumber(w: bv32)
    ensures ByteVal(ByteOf(w, 0)) == ToNat(w) % 0x100 && ByteVal(ByteOf(w, 1)) == ToNat(w) / 0x100 % 0x100
    ensures ByteVal(ByteOf(w, 2)) == ToNat(w) / 0x1_0000 % 0x100 && ByteVal(ByteOf(w, 3)) == ToNat(w) / 0x100_0000
  {
    hide ByteVal, ByteOf;
    DigitsUnique(ByteVal(ByteOf(w, 0)), ByteVal(ByteOf(w, 1)), ByteVal(ByteOf(w, 2)), ByteVal(ByteOf(w, 3)));
    DivideTwice(ToNat(w));
  }

  lemma DivideTwice(n: nat)
    ensures n / 0x100 / 0x100 == n / 0x1_0000 && n / 0x100 / 0x100 / 0x100 == n / 0x100_0000
  {
  }

  lemma ByteStored(ram: Ram, p: bv32, value: bv32)
    ensures Stored(ram, SetByte(ram, p, ByteOf(value, 0)), SB, p, value)
  {
    Consecutive(SetByte(ram, p, ByteOf(value, 0)), p);
    hide ByteVal, ByteOf, ToNat, At;
    BytesOfNumber(value);
  }

  lemma HalfBytes(ram: Ram, p: bv32, value: bv32, x: bv32)
    ensures SetHalf(ram, p, value)(p) == ByteOf(value, 0) && SetHalf(ram, p, value)(p + 1) == ByteOf(value, 1)
    ensures x != p && x != p + 1 ==> SetHalf(ram, p, value)(x) == ram(x)
  {
    hide ByteOf;
    RamFacts.Distinct1(p);
  }

  lemma HalfStored(ram: Ram, p: bv32, value: bv32)
    ensures Stored(ram, SetHalf(ram, p, value), SH, p, value)
  {
    hide ByteVal, ByteOf, ToNat, At, SetHalf;
    Consecutive(SetHalf(ram, p, value), p);
    BytesOfNumber(value);
    HalfBytes(ram, p, value, p);
    forall x: bv32 | x != p && x != p + 1
      ensures SetHalf(ram, p, value)(x) == ram(x)
    {
      HalfBytes(ram, p, value, x);
    }
  }

  lemma WordStored(ram: Ram, p: bv32, value: bv32)
    ensures Stored(ram, SetWord(ram, p, value), SW, p, value)
  {
    hide ByteVal, ByteOf, ToNat, At, SetWord;
    Consecutive(SetWord(ram, p, value), p);
    BytesOfNumber(value);
    RamFacts.WordByte0(ram, p, value);
    RamFacts.WordByte1(ram, p, value);
    RamFacts.WordByte2(ram, p, value);
    RamFacts.WordByte3(ram, p, value);
    forall x: bv32 | x != p && x != p + 1 && x != p + 2 && x != p + 3
      ensures SetWord(ram, p, value)(x) == ram(x)
    {
      RamFacts.WordElsewhere(ram, p, value, x);
    }
  }

  ghost predicate WritesRam(s: State, v: bv32, size: bv32, p: bv32) {
    var t := Translate(s.mem, HartOf(s), v, AccessType.Store);
    !Straddles(v, size) && t.Done? && t.value == p && !Mmio.Writable(p)
  }

  lemma AccessStores(s: State, op: SOp, v: bv32, p: bv32, value: bv32)
    requires WritesRam(s, v, StoredBytes(op), p)
    ensures var r := StoreAccess(s.mem, HartOf(s), op, v, value);
      r.Done? && Stored(s.mem.ram, r.mem.ram, op, p, value) && BusFacts.OnlyDevice(s.mem, r.mem.(ram := s.mem.ram))
  {
    hide Translate, Mmio.Write, Mmio.Writable, Straddles, HartOf, Stored, SetByte, SetHalf, SetWord, ByteOf;
    var t := Translate(s.mem, HartOf(s), v, AccessType.Store);
    BusFacts.TranslateFrame(s.mem, HartOf(s), v, AccessType.Store);
    match op
    case SB => ByteStored(s.mem.ram, p, value); Mmio.Claims(t.mem.dev, p, ByteOf(value, 0) as bv32);
    case SH => HalfStored(s.mem.ram, p, value); Mmio.Claims(t.mem.dev, p, value & 0xFFFF);
    case SW => WordStored(s.mem.ram, p, value); Mmio.Claims(t.mem.dev, p, value);
  }

  lemma NotifiesOnly(s: State, v: bv32, size: bv64)
    ensures NotifyStore(s, v, size) == s.(reserved := NotifyStore(s, v, size).reserved)
    ensures HartOf(NotifyStore(s, v, size)) == HartOf(s)
  {
    hide Overlaps;
  }

  /** A store at rs1 plus its offset, inside a page, to RAM: the low bytes of rs2 are there, no other
      byte of RAM and no register has changed. */
  lemma StoreInstruction(s: State, op: SOp, rs1: bv5, rs2: bv5, imm: bv32, word: bv32, v: bv32, p: bv32)
    requires IsAt(s.regs(rs1), imm, v) && WritesRam(s, v, StoredBytes(op), p)
    ensures var o := Exec(s, Instr.Store(op, rs1, rs2, imm), word);
      o.Next? && Stored(s.mem.ram, o.state.mem.ram, op, p, s.regs(rs2))
      && o.state == s.(mem := o.state.mem, reserved := o.state.reserved)
      && BusFacts.OnlyDevice(s.mem, o.state.mem.(ram := s.mem.ram))
  {
    hide Exec, StoreAccess, Translate, IsAt, WritesRam, HartOf, Stored, Offset, NotifyStore, BusFacts.OnlyDevice;
    SameAddress(s.regs(rs1), imm, v);
    ExecOfStore(s, op, rs1, rs2, imm, word);
    NotifiesOnly(s, v, StoreSize(op));
    AccessStores(s, op, v, p, s.regs(rs2));
  }

  // ----- atomics -------------------------------------------------------------------------

  /** Both accesses at `v` go to the RAM word at `p`, through page tables in RAM. */
  ghost predicate AtomicAt(s: State, v: bv32, p: bv32) {
    !Straddles(v, 4) && !Mmio.Readable(p)
    && Translate(s.mem, HartOf(s), v, AccessType.Load) == Done(p, s.mem)
    && Translate(s.mem, HartOf(s), v, AccessType.Store) == Done(p, s.mem)
  }

  /** An AMO puts the word it finds in rd and stores what its operation means on that word and rs2. */
  lemma AmoInstruction(s: State, op: AmoOp, rd: bv5, rs1: bv5, rs2: bv5, word: bv32, p: bv32)
    returns (before: bv32, value: bv32)
    requires AtomicAt(s, s.regs(rs1), p)
    ensures Loaded(s.mem.ram, LW, p, before) && Arithmetic.AmoMeans(op, before, s.regs(rs2), value)
    ensures var o := Exec(s, Amo(op, rd, rs1, rs2), word);
      o.Next? && OnlyPuts(s, rd, before, o.state) && Stored(s.mem.ram, o.state.mem.ram, SW, p, value)
      && o.state.mem == s.mem.(ram := o.state.mem.ram)
  {
    before := GetWord(s.mem.ram, p);
    value := Alu.AmoResult(op, before, s.regs(rs2));
    WithWordIs(s.mem, p, value);
    hide Exec, ExecAmo, Translate, Straddles, Mmio.Readable, HartOf, Loaded, Stored, GetWord, SetWord,
         Arithmetic.AmoMeans, Alu.AmoResult, OnlyPuts,
         SetRegister, LrScAlias.WithWord;
    ExecOfAmo(s, op, rd, rs1, rs2, word);
    Faults.AmoIsAllOrNothing(s, op, rd, s.regs(rs1), s.regs(rs2), p);
    WordLoaded(s.mem.ram, p);
    Arithmetic.AmoOperations(op, before, s.regs(rs2));
    PutsRegisters(s, rd, before, Exec(s, Amo(op, rd, rs1, rs2), word).state);
  }

  lemma WithWordIs(m: Mem, p: bv32, value: bv32)
    ensures var n := LrScAlias.WithWord(m, p, value); n == m.(ram := n.ram) && Stored(m.ram, n.ram, SW, p, value)
  {
    hide SetWord, Stored;
    WordStored(m.ram, p, value);
  }

  lemma PutsRegisters(s: State, rd: bv5, value: bv32, t: State)
    requires t.regs == SetRegister(s.regs, rd, value)
    ensures OnlyPuts(s, rd, value, t)
  {
  }
}
