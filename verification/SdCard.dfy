/** The SD card behind the SPI port: a byte protocol over a disk image. */
module SdCard {
  import opened Words
  import Crc16

  /** The `_spi*` fields of the memory system, its disk, and the clock counter of the
      write phase (a function-local static of the source). `lost` is set by the one clock
      that reads outside the disk: what the source does then, and ever after, has no meaning. */
  datatype Spi = Spi(
    state: nat,
    cmd: bv8,
    arg: nat,
    argBytes: nat,
    moved: nat,
    reply: bv8,
    crc: bv16,
    waited: bool,
    disk: seq<bv8>,
    lost: bool)

  const READ_BLOCK: bv8 := 17
  const WRITE_BLOCK: bv8 := 24
  const BLOCK: nat := 512

  /** First disk byte of the block a command names; the product wraps at 32 bits. */
  function BlockStart(arg: nat): nat {
    arg * BLOCK % TWO_32
  }

  function DiskAt(disk: seq<bv8>, i: nat): bv8 {
    if i < |disk| then disk[i] else 0
  }

  /** The source's bound test on the block; its sum wraps at 32 bits. */
  predicate PassesBound(arg: nat, size: nat) {
    (BlockStart(arg) + BLOCK) % TWO_32 <= size
  }

  /** The block passes the test and is not on the disk all the same. */
  predicate Overreads(arg: nat, size: nat) {
    PassesBound(arg, size) && BlockStart(arg) + BLOCK > size
  }

  function BlockCrc(disk: seq<bv8>, arg: nat): bv16
    requires !Overreads(arg, |disk|)
  {
    var start := BlockStart(arg);
    if PassesBound(arg, |disk|) then Crc16.Crc(disk[start..start + BLOCK]) else 0
  }

  /** One byte written to the port. */
  function Write(s: Spi, b: bv8): Spi {
    if s.lost then s
    else if s.state == 0 then
      var s1 := s.(reply := 0xFF);
      if b != 0xFF then s1.(cmd := b & 0x3F, state := 1, arg := 0, argBytes := 0) else s1
    else if s.state == 1 then
      var s1 := s.(arg := (s.arg * 0x100 + ByteVal(b)) % TWO_32, argBytes := s.argBytes + 1);
      if s1.argBytes == 4 then s1.(state := 2) else s1
    else if s.state == 2 then
      var s1 := s.(reply := 0x00);
      if s.cmd == READ_BLOCK then s1.(state := 3, moved := 0)
      else if s.cmd == WRITE_BLOCK then s1.(state := 4, moved := 0)
      else s1.(state := 0)
    else if s.state == 3 then
      WriteWhileReading(s)
    else if s.state == 4 then
      WriteWhileWriting(s, b)
    else s
  }

  /** A clock of the CMD17 answer. */
  function WriteWhileReading(s: Spi): Spi {
    if s.moved == 0 then
      if Overreads(s.arg, |s.disk|) then s.(lost := true)
      else s.(reply := 0x00, crc := BlockCrc(s.disk, s.arg), moved := 1)
    else if s.moved == 1 then
      s.(reply := 0xFE, moved := 2)
    else if s.moved <= 513 then
      s.(reply := DiskAt(s.disk, BlockStart(s.arg) + (s.moved - 2)), moved := s.moved + 1)
    else if s.moved == 514 then
      s.(reply := Crc16.High(s.crc), moved := 515)
    else if s.moved == 515 then
      s.(reply := Crc16.Low(s.crc), moved := 516)
    else
      s.(reply := 0xFF, state := 0)
  }

  /** A byte of the CMD24 data phase. */
  function WriteWhileWriting(s: Spi, b: bv8): Spi {
    if s.moved == 0 then
      var s1 := if !s.waited then s.(reply := 0x00, waited := true) else s.(reply := 0xFF);
      if b == 0xFE then s1.(moved := 1, waited := false) else s1
    else if s.moved <= 512 then
      var i := BlockStart(s.arg) + (s.moved - 1);
      s.(disk := if i < |s.disk| then s.disk[i := b] else s.disk, moved := s.moved + 1)
    else if s.moved <= 514 then
      s.(moved := s.moved + 1)
    else
      s.(reply := 0x05, state := 0)
  }
}
