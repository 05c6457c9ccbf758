/** The byte protocol of the SD port, read as a sequence of transactions on a block device. */
module SdTransactions {
  import opened Words
  import opened SdCard
  import Crc16
  import CrcAlgebra

  /** The port after a sequence of bytes. */
  function Run(s: Spi, bytes: seq<bv8>): Spi
    decreases |bytes|
  {
    if bytes == [] then s else Run(Write(s, bytes[0]), bytes[1..])
  }

  lemma {:induction false} RunConcat(s: Spi, a: seq<bv8>, b: seq<bv8>)
    ensures Run(s, a + b) == Run(Run(s, a), b)
    decreases |a|
  {
    hide Write;
    if a == [] {
      assert a + b == b;
    } else {
      assert (a + b)[1..] == a[1..] + b;
      RunConcat(Write(s, a[0]), a[1..], b);
    }
  }

  lemma RunSplit(s: Spi, bytes: seq<bv8>, n: nat)
    requires n <= |bytes|
    ensures Run(s, bytes) == Run(Run(s, bytes[..n]), bytes[n..])
  {
    hide Run;
    assert bytes == bytes[..n] + bytes[n..];
    RunConcat(s, bytes[..n], bytes[n..]);
  }

  // ----- the legal range ---------------------------------------------------------

  /** Where the state and its counters can be. */
  predicate Legal(s: Spi) {
    && s.arg < TWO_32
    && match s.state
       case 0 => true
       case 1 => s.argBytes < 4
       case 2 => s.argBytes == 4
       case 3 => s.cmd == READ_BLOCK && s.moved <= 516
       case 4 => s.cmd == WRITE_BLOCK && s.moved <= 515
       case _ => false
  }

  lemma WriteKeepsLegal(s: Spi, b: bv8)
    requires Legal(s)
    ensures Legal(Write(s, b)) && |Write(s, b).disk| == |s.disk|
  {
    hide ByteVal, BlockCrc, DiskAt, BlockStart;
  }

  /** Every byte sequence keeps the state and its counters in range, as long as what the source
      does has a meaning: until a clock reads outside the disk, if ever. */
  lemma {:induction false} AlwaysLegal(s: Spi, bytes: seq<bv8>)
    requires Legal(s)
    ensures !Run(s, bytes).lost ==> Legal(Run(s, bytes)) && |Run(s, bytes).disk| == |s.disk|
    decreases |bytes|
  {
    hide Legal, Write;
    if bytes != [] {
      WriteKeepsLegal(s, bytes[0]);
      AlwaysLegal(Write(s, bytes[0]), bytes[1..]);
    }
  }

  // ----- the clock that reads outside the disk --------------------------------------

  /** The block a command names: the argument modulo 2^23. */
  function BlockNumber(arg: nat): nat {
    arg % 0x80_0000
  }

  const LAST_BLOCK: nat := 0x7F_FFFF

  lemma BlockStartIs(arg: nat)
    ensures BlockStart(arg) == BlockNumber(arg) * BLOCK
  {
    var q, r := arg / 0x80_0000, arg % 0x80_0000;
    assert arg * BLOCK == q * TWO_32 + r * BLOCK;
    assert (q * TWO_32 + r * BLOCK) % TWO_32 == r * BLOCK by {
      WrapOnce(q, r * BLOCK);
    }
  }

  lemma WrapOnce(q: nat, r: nat)
    requires r < TWO_32
    ensures (q * TWO_32 + r) % TWO_32 == r
  {
  }

  /** The bound test and the disk disagree about exactly one block, the last that 32 bits can
      address: the end of it wraps to 0. */
  lemma OverreadsExactly(arg: nat, size: nat)
    ensures Overreads(arg, size) <==> BlockNumber(arg) == LAST_BLOCK && size < TWO_32
  {
    BlockStartIs(arg);
    hide BlockStart;
  }

  /** A byte has no meaning exactly when it is the first clock of a read of that block, on a disk
      of less than 2^32 bytes. */
  lemma LosesExactly(s: Spi, b: bv8)
    requires !s.lost
    ensures Write(s, b).lost <==> s.state == 3 && s.moved == 0 && BlockNumber(s.arg) == LAST_BLOCK && |s.disk| < TWO_32
  {
    hide Overreads, BlockNumber, ByteVal, BlockCrc, DiskAt, BlockStart;
    OverreadsExactly(s.arg, |s.disk|);
  }

  lemma {:induction false} LostStays(s: Spi, bytes: seq<bv8>)
    requires s.lost
    ensures Run(s, bytes) == s
    decreases |bytes|
  {
    if bytes != [] {
      LostStays(s, bytes[1..]);
    }
  }

  // ----- the reference --------------------------------------------------------------

  /** The disk with `data` from byte `start`, as far as the disk goes. */
  function Written(disk: seq<bv8>, start: nat, data: seq<bv8>): (r: seq<bv8>)
    ensures |r| == |disk|
    ensures forall i :: 0 <= i < |disk| ==> r[i] == if start <= i < start + |data| then data[i - start] else disk[i]
  {
    seq(|disk|, i requires 0 <= i < |disk| => if start <= i < start + |data| then data[i - start] else disk[i])
  }

  /** The 32-bit argument, most significant byte first. */
  function Argument(b0: bv8, b1: bv8, b2: bv8, b3: bv8): nat {
    Digits(ByteVal(b3), ByteVal(b2), ByteVal(b1), ByteVal(b0))
  }

  /** Position of the data token, |bytes| when there is none. */
  function TokenAt(bytes: seq<bv8>): (n: nat)
    ensures n <= |bytes|
    ensures forall i :: 0 <= i < n ==> bytes[i] != 0xFE
    ensures n < |bytes| ==> bytes[n] == 0xFE
  {
    if bytes == [] || bytes[0] == 0xFE then 0 else 1 + TokenAt(bytes[1..])
  }

  const READ_CLOCKS: nat := 517
  const TRAILER: nat := 3

  /** The disk a byte sequence leaves, or no meaning. */
  datatype Image = Disk(bytes: seq<bv8>) | NoMeaning

  function ImageOf(s: Spi): Image {
    if s.lost then NoMeaning else Disk(s.disk)
  }

  /** What a block device does with the bytes a host sends: commands of six bytes, 517 clocks for
      a read, a token, 512 bytes and a trailer of three for a write; an unfinished write leaves
      the bytes that arrived. The first clock of a read of the last addressable block has no
      meaning unless the disk reaches that far. */
  function Replay(disk: seq<bv8>, bytes: seq<bv8>): Image
    decreases |bytes|
  {
    if bytes == [] then Disk(disk)
    else if bytes[0] == 0xFF then Replay(disk, bytes[1..])
    else if |bytes| < 6 then Disk(disk)
    else
      var cmd, arg := bytes[0] & 0x3F, Argument(bytes[1], bytes[2], bytes[3], bytes[4]);
      var rest := bytes[6..];
      if cmd == READ_BLOCK then
        if rest != [] && BlockNumber(arg) == LAST_BLOCK && |disk| < TWO_32 then NoMeaning
        else if |rest| < READ_CLOCKS then Disk(disk)
        else Replay(disk, rest[READ_CLOCKS..])
      else if cmd == WRITE_BLOCK then ReplayWrite(disk, arg, rest)
      else Replay(disk, rest)
  }

  /** The part of a write after its command. */
  function ReplayWrite(disk: seq<bv8>, arg: nat, rest: seq<bv8>): Image
    decreases |rest|
  {
    var token := TokenAt(rest);
    if token == |rest| then Disk(disk)
    else
      var data := rest[token + 1..];
      if |data| < BLOCK + TRAILER then
        Disk(Written(disk, BlockNumber(arg) * BLOCK, data[..if |data| < BLOCK then |data| else BLOCK]))
      else
        Replay(Written(disk, BlockNumber(arg) * BLOCK, data[..BLOCK]), data[BLOCK + TRAILER..])
  }

  // ----- phases -----------------------------------------------------------------------

  /** The six bytes of a command leave the idle state with the command taken. */
  predicate Commanded(s: Spi, t: Spi, cmd: bv8, arg: nat) {
    t.disk == s.disk && t.arg == arg && t.moved == (if cmd == READ_BLOCK || cmd == WRITE_BLOCK then 0 else s.moved)
    && t.cmd == cmd && t.waited == s.waited && !t.lost
    && t.state == if cmd == READ_BLOCK then 3 else if cmd == WRITE_BLOCK then 4 else 0
  }

  lemma ArgumentStep(v: nat, b: nat)
    requires v < 0x100_0000 && b < 0x100
    ensures (v * 0x100 + b) % TWO_32 == v * 0x100 + b
  {
  }

  lemma FirstByte(s: Spi, b: bv8)
    requires !s.lost && s.state == 0 && b != 0xFF
    ensures Write(s, b) == s.(reply := 0xFF, cmd := b & 0x3F, state := 1, arg := 0, argBytes := 0)
  {
    hide ByteVal;
  }

  lemma ArgumentByte(s: Spi, b: bv8)
    requires !s.lost && s.state == 1 && s.argBytes < 4 && s.arg < 0x100_0000
    ensures Write(s, b) == s.(arg := s.arg * 0x100 + ByteVal(b), argBytes := s.argBytes + 1, state := if s.argBytes == 3 then 2 else 1)
  {
    hide ByteVal;
    ArgumentStep(s.arg, ByteVal(b));
  }

  lemma SixthByte(s: Spi, b: bv8)
    requires !s.lost && s.state == 2
    ensures Commanded(s, Write(s, b), s.cmd, s.arg)
  {
  }

  lemma Run1(s: Spi, b: bv8)
    ensures Run(s, [b]) == Write(s, b)
  {
    hide Write;
  }

  /** Argument bytes shift in most significant first. */
  lemma CommandPhase(s: Spi, c: seq<bv8>)
    requires !s.lost && s.state == 0 && |c| == 6 && c[0] != 0xFF
    ensures Commanded(s, Run(s, c), c[0] & 0x3F, Argument(c[1], c[2], c[3], c[4]))
  {
    hide ByteVal, Run, Write, Commanded;
    var s1 := Write(s, c[0]);
    var s2 := Write(s1, c[1]);
    var s3 := Write(s2, c[2]);
    var s4 := Write(s3, c[3]);
    var s5 := Write(s4, c[4]);
    FirstByte(s, c[0]);
    ArgumentByte(s1, c[1]);
    ArgumentByte(s2, c[2]);
    ArgumentByte(s3, c[3]);
    ArgumentByte(s4, c[4]);
    SixthByte(s5, c[5]);
    SixSteps(s, c);
    assert s5.arg == Argument(c[1], c[2], c[3], c[4]);
    CommandedFrom(s, s5, Run(s, c), c[0] & 0x3F, s5.arg);
  }

  lemma CommandedFrom(s: Spi, s5: Spi, t: Spi, cmd: bv8, arg: nat)
    requires Commanded(s5, t, cmd, arg)
    requires s5.disk == s.disk && s5.moved == s.moved && s5.waited == s.waited
    ensures Commanded(s, t, cmd, arg)
  {
  }

  lemma SixSteps(s: Spi, c: seq<bv8>)
    requires |c| == 6
    ensures Run(s, c) == Write(Write(Write(Write(Write(Write(s, c[0]), c[1]), c[2]), c[3]), c[4]), c[5])
  {
    hide Write;
    var s1 := Write(s, c[0]);
    var s2 := Write(s1, c[1]);
    var s3 := Write(s2, c[2]);
    var s4 := Write(s3, c[3]);
    var s5 := Write(s4, c[4]);
    assert Run(s, c) == Run(s1, c[1..]);
    assert c[1..][1..] == c[2..] && c[2..][1..] == c[3..] && c[3..][1..] == c[4..] && c[4..][1..] == c[5..];
    assert Run(s1, c[1..]) == Run(s2, c[2..]);
    assert Run(s2, c[2..]) == Run(s3, c[3..]);
    assert Run(s3, c[3..]) == Run(s4, c[4..]);
    assert Run(s4, c[4..]) == Run(s5, c[5..]);
    assert c[5..] == [c[5]];
    Run1(s5, c[5]);
  }

  lemma {:induction false} ShortCommand(s: Spi, c: seq<bv8>)
    requires !s.lost && s.state == 0 && 0 < |c| < 6 && c[0] != 0xFF
    ensures Run(s, c).disk == s.disk && !Run(s, c).lost
  {
    hide ByteVal, Run;
    ArgumentBytes(Write(s, c[0]), c[1..]);
    RunFirst(s, c);
  }

  lemma RunFirst(s: Spi, c: seq<bv8>)
    requires c != []
    ensures Run(s, c) == Run(Write(s, c[0]), c[1..])
  {
    hide Write;
  }

  lemma {:induction false} ArgumentBytes(s: Spi, c: seq<bv8>)
    requires !s.lost && s.state == 1 && s.argBytes + |c| <= 4
    ensures Run(s, c).disk == s.disk && !Run(s, c).lost
    decreases |c|
  {
    hide ByteVal, WriteWhileReading, WriteWhileWriting;
    if c != [] {
      var s1 := Write(s, c[0]);
      if |c| == 1 {
        assert c[1..] == [];
      } else {
        ArgumentBytes(s1, c[1..]);
      }
    }
  }

  lemma ReadingTurn(s: Spi, b: bv8)
    requires !s.lost && s.state == 3
    ensures Write(s, b) == WriteWhileReading(s)
  {
    hide WriteWhileReading, WriteWhileWriting, ByteVal;
  }

  /** A clock that stays on the disk moves the counter on, and only the 517th ends the read. */
  lemma ClockMoves(s: Spi, b: bv8)
    requires !s.lost && s.state == 3 && s.moved <= 516 && (s.moved == 0 ==> !Overreads(s.arg, |s.disk|))
    ensures var t := Write(s, b);
      t.disk == s.disk && t.waited == s.waited && !t.lost && t.arg == s.arg
      && if s.moved == 516 then t.state == 0 else t.state == 3 && t.moved == s.moved + 1
  {
    ReadingTurn(s, b);
    hide Write, BlockCrc, DiskAt, BlockStart, Overreads, Crc16.High, Crc16.Low;
  }

  /** Clocks of a read change no disk byte, and the 517th returns to idle. */
  lemma {:induction false} ReadPhase(s: Spi, clocks: seq<bv8>)
    requires !s.lost && s.state == 3 && s.moved + |clocks| <= READ_CLOCKS && s.moved <= 516
    requires s.moved == 0 ==> !Overreads(s.arg, |s.disk|)
    ensures var t := Run(s, clocks);
      t.disk == s.disk && t.waited == s.waited && !t.lost
      && (s.moved + |clocks| < READ_CLOCKS ==> t.state == 3 && t.moved == s.moved + |clocks|)
      && (s.moved + |clocks| == READ_CLOCKS ==> t.state == 0)
    decreases |clocks|
  {
    hide Write, Overreads;
    if clocks != [] {
      ClockMoves(s, clocks[0]);
      if s.moved == 516 {
        assert clocks[1..] == [];
      } else {
        ReadPhase(Write(s, clocks[0]), clocks[1..]);
      }
    }
  }

  lemma OverreadPhase(s: Spi, clocks: seq<bv8>)
    requires !s.lost && s.state == 3 && s.moved == 0 && Overreads(s.arg, |s.disk|) && clocks != []
    ensures Run(s, clocks).lost
  {
    RunFirst(s, clocks);
    LostStays(Write(s, clocks[0]), clocks[1..]);
    hide Run, Overreads;
  }

  /** Bytes before the token change nothing but the reply. */
  lemma {:induction false} TokenPhase(s: Spi, bytes: seq<bv8>)
    requires !s.lost && s.state == 4 && s.moved == 0 && forall i :: 0 <= i < |bytes| ==> bytes[i] != 0xFE
    ensures var t := Run(s, bytes);
      t.disk == s.disk && t.state == 4 && t.moved == 0 && t.arg == s.arg && !t.lost
    decreases |bytes|
  {
    if bytes != [] {
      TokenPhase(Write(s, bytes[0]), bytes[1..]);
    }
  }

  lemma WrittenOne(disk: seq<bv8>, start: nat, data: seq<bv8>, i: nat)
    requires data != []
    ensures Written(Written(disk, start + i, [data[0]]), start + i + 1, data[1..]) == Written(disk, start + i, data)
  {
  }

  lemma OneByte(s: Spi, b: bv8)
    requires !s.lost && s.state == 4 && 1 <= s.moved <= BLOCK
    ensures Write(s, b) == s.(disk := Written(s.disk, BlockStart(s.arg) + (s.moved - 1), [b]), moved := s.moved + 1)
  {
    hide BlockStart;
    var i := BlockStart(s.arg) + (s.moved - 1);
    assert (if i < |s.disk| then s.disk[i := b] else s.disk) == Written(s.disk, i, [b]);
  }

  /** Data bytes go to the disk in order, from the first byte of the block. */
  lemma {:induction false} DataPhase(s: Spi, data: seq<bv8>)
    requires !s.lost && s.state == 4 && 1 <= s.moved && s.moved - 1 + |data| <= BLOCK
    ensures Run(s, data) == s.(disk := Written(s.disk, BlockStart(s.arg) + (s.moved - 1), data), moved := s.moved + |data|)
    decreases |data|
  {
    hide Write, BlockStart;
    if data == [] {
      assert Written(s.disk, BlockStart(s.arg) + (s.moved - 1), data) == s.disk;
    } else {
      OneByte(s, data[0]);
      DataPhase(Write(s, data[0]), data[1..]);
      WrittenOne(s.disk, BlockStart(s.arg), data, s.moved - 1);
    }
  }

  /** The three bytes after the data change no disk byte; the third returns to idle. */
  lemma {:induction false} TrailerPhase(s: Spi, bytes: seq<bv8>)
    requires !s.lost && s.state == 4 && BLOCK < s.moved && s.moved - 513 + |bytes| <= TRAILER && s.moved <= 515
    ensures var t := Run(s, bytes);
      t.disk == s.disk && t.waited == s.waited && !t.lost && (s.moved - 513 + |bytes| == TRAILER ==> t.state == 0)
    decreases |bytes|
  {
    if bytes != [] {
      var s1 := Write(s, bytes[0]);
      if s.moved == 515 {
        assert bytes[1..] == [];
      } else {
        TrailerPhase(s1, bytes[1..]);
      }
    }
  }

  // ----- refinement ------------------------------------------------------------------

  lemma TokenByte(s: Spi)
    requires !s.lost && s.state == 4 && s.moved == 0
    ensures var t := Write(s, 0xFE); t == s.(reply := t.reply, waited := false, moved := 1)
  {
  }

  /** Up to and including the token. */
  lemma ThroughToken(s: Spi, rest: seq<bv8>)
    requires !s.lost && s.state == 4 && s.moved == 0 && TokenAt(rest) < |rest|
    ensures var n := TokenAt(rest);
      var t := Run(s, rest[..n + 1]);
      t.disk == s.disk && t.arg == s.arg && t.state == 4 && t.moved == 1 && !t.lost
      && Run(s, rest) == Run(t, rest[n + 1..])
  {
    hide Write, Run;
    var n := TokenAt(rest);
    TokenPhase(s, rest[..n]);
    var t := Run(s, rest[..n]);
    TokenByte(t);
    RunSplit(s, rest[..n + 1], n);
    assert rest[..n + 1][..n] == rest[..n] && rest[..n + 1][n..] == [0xFE];
    Run1(t, 0xFE);
    RunSplit(s, rest, n + 1);
  }

  lemma {:induction false} RefinesWrite(s: Spi, rest: seq<bv8>)
    requires !s.lost && s.state == 4 && s.moved == 0
    ensures ImageOf(Run(s, rest)) == ReplayWrite(s.disk, s.arg, rest)
    decreases |rest|, 0
  {
    hide Write, Run, Replay, BlockStart;
    BlockStartIs(s.arg);
    var n := TokenAt(rest);
    if n == |rest| {
      TokenPhase(s, rest);
    } else {
      ThroughToken(s, rest);
      var t, data := Run(s, rest[..n + 1]), rest[n + 1..];
      if |data| <= BLOCK {
        DataPhase(t, data);
        assert data[..|data|] == data;
      } else {
        RunSplit(t, data, BLOCK);
        DataPhase(t, data[..BLOCK]);
        var u := Run(t, data[..BLOCK]);
        if |data| < BLOCK + TRAILER {
          TrailerPhase(u, data[BLOCK..]);
        } else {
          RunSplit(u, data[BLOCK..], TRAILER);
          TrailerPhase(u, data[BLOCK..][..TRAILER]);
          assert data[BLOCK..][TRAILER..] == data[BLOCK + TRAILER..];
          Refines(Run(u, data[BLOCK..][..TRAILER]), data[BLOCK + TRAILER..]);
        }
      }
    }
  }

  lemma IdleByte(s: Spi)
    requires !s.lost && s.state == 0
    ensures Write(s, 0xFF) == s.(reply := 0xFF)
  {
  }

  /** Refinement: whatever bytes are sent from the idle state, they have a meaning exactly when
      they have one for the block device, and then the disk is the one it has after the same
      bytes: the completed blocks written in order, and of a block in progress exactly the bytes
      that arrived. */
  lemma {:induction false} Refines(s: Spi, bytes: seq<bv8>)
    requires !s.lost && s.state == 0
    ensures ImageOf(Run(s, bytes)) == Replay(s.disk, bytes)
    decreases |bytes|, 1
  {
    hide Write, Run, ReplayWrite, ByteVal, Overreads, BlockNumber;
    if bytes == [] {
      RunEmpty(s);
    } else if bytes[0] == 0xFF {
      IdleByte(s);
      RunFirst(s, bytes);
      Refines(Write(s, 0xFF), bytes[1..]);
    } else if |bytes| < 6 {
      ShortCommand(s, bytes);
    } else {
      var rest := bytes[6..];
      RunSplit(s, bytes, 6);
      CommandPhase(s, bytes[..6]);
      var t := Run(s, bytes[..6]);
      if t.cmd == READ_BLOCK {
        OverreadsExactly(t.arg, |t.disk|);
        if rest != [] && Overreads(t.arg, |t.disk|) {
          OverreadPhase(t, rest);
        } else if rest == [] {
          RunEmpty(t);
        } else if |rest| < READ_CLOCKS {
          ReadPhase(t, rest);
        } else {
          RunSplit(t, rest, READ_CLOCKS);
          ReadPhase(t, rest[..READ_CLOCKS]);
          Refines(Run(t, rest[..READ_CLOCKS]), rest[READ_CLOCKS..]);
        }
      } else if t.cmd == WRITE_BLOCK {
        RefinesWrite(t, rest);
      } else {
        Refines(t, rest);
      }
    }
  }

  lemma RunEmpty(s: Spi)
    ensures Run(s, []) == s
  {
  }

  /** From idle, on any disk below 4 GiB, a read of block 0x7F_FFFF and one clock: the source reads
      the disk at 0xFFFF_FE00, past its end. */
  lemma LastBlockOverreads(s: Spi, crc: bv8, clock: bv8)
    requires !s.lost && s.state == 0 && |s.disk| < TWO_32
    ensures Run(s, [0x51, 0x00, 0x7F, 0xFF, 0xFF, crc, clock]).lost
  {
    var bytes := [0x51, 0x00, 0x7F, 0xFF, 0xFF, crc, clock];
    assert bytes[6..] == [clock];
    LastArgument();
    hide Write, Run, ReplayWrite, ByteVal, Argument;
    Refines(s, bytes);
  }

  lemma LastArgument()
    ensures BlockNumber(Argument(0x00, 0x7F, 0xFF, 0xFF)) == LAST_BLOCK
  {
    assert ByteVal(0xFF) == 0xFF && ByteVal(0x7F) == 0x7F && ByteVal(0) == 0;
  }

  // ----- reading back ------------------------------------------------------------------

  /** The reply the host reads after each byte. */
  function Replies(s: Spi, bytes: seq<bv8>): seq<bv8>
    decreases |bytes|
  {
    if bytes == [] then [] else [Write(s, bytes[0]).reply] + Replies(Write(s, bytes[0]), bytes[1..])
  }

  /** What the card answers to a read: ready, start token, the block, its CRC, idle. */
  function Answer(block: seq<bv8>): seq<bv8> {
    [0x00, 0xFE] + block + [Crc16.High(Crc16.Crc(block)), Crc16.Low(Crc16.Crc(block)), 0xFF]
  }

  predicate InRange(disk: seq<bv8>, arg: nat) {
    BlockStart(arg) + BLOCK <= |disk|
  }

  function BlockOf(disk: seq<bv8>, arg: nat): seq<bv8>
    requires InRange(disk, arg)
  {
    disk[BlockStart(arg)..BlockStart(arg) + BLOCK]
  }

  /** The state of a read after `k` clocks, k >= 1: the CRC register holds the block's CRC. */
  predicate Reading(s: Spi, block: seq<bv8>) {
    !s.lost && s.state == 3 && InRange(s.disk, s.arg) && BlockOf(s.disk, s.arg) == block
    && s.moved <= 516 && (s.moved > 0 ==> s.crc == Crc16.Crc(block))
  }

  lemma AnswerAt(block: seq<bv8>, k: nat)
    requires |block| == BLOCK && k < READ_CLOCKS
    ensures |Answer(block)| == READ_CLOCKS
    ensures Answer(block)[k] ==
      if k == 0 then 0x00 else if k == 1 then 0xFE else if k <= 513 then block[k - 2]
      else if k == 514 then Crc16.High(Crc16.Crc(block)) else if k == 515 then Crc16.Low(Crc16.Crc(block)) else 0xFF
  {
    hide Crc16.Crc, Crc16.High, Crc16.Low;
  }

  lemma ClockReply(s: Spi, block: seq<bv8>)
    requires Reading(s, block)
    ensures |block| == BLOCK && |Answer(block)| == READ_CLOCKS && s.moved < READ_CLOCKS
    ensures WriteWhileReading(s).reply == Answer(block)[s.moved]
  {
    hide Crc16.Crc, BlockStart, Answer;
    AnswerAt(block, s.moved);
  }

  lemma ClockState(s: Spi, block: seq<bv8>)
    requires Reading(s, block)
    ensures s.moved < 516 ==> Reading(WriteWhileReading(s), block) && WriteWhileReading(s).moved == s.moved + 1
    ensures s.moved == 516 ==> WriteWhileReading(s).state == 0
  {
    hide Crc16.Crc, BlockStart, DiskAt;
  }

  lemma ReadClock(s: Spi, b: bv8, block: seq<bv8>)
    requires Reading(s, block)
    ensures |block| == BLOCK && |Answer(block)| == READ_CLOCKS && s.moved < READ_CLOCKS
    ensures Write(s, b).reply == Answer(block)[s.moved]
    ensures s.moved < 516 ==> Reading(Write(s, b), block) && Write(s, b).moved == s.moved + 1
    ensures s.moved == 516 ==> Write(s, b).state == 0
  {
    ClockReply(s, block);
    ClockState(s, block);
    hide WriteWhileReading, BlockOf, InRange, Crc16.Crc, Answer;
  }

  lemma {:induction false} ReadReplies(s: Spi, clocks: seq<bv8>, block: seq<bv8>)
    requires Reading(s, block) && s.moved + |clocks| == READ_CLOCKS
    ensures |Answer(block)| == READ_CLOCKS && Replies(s, clocks) == Answer(block)[s.moved..]
    decreases |clocks|
  {
    hide Write, Answer, Reading;
    ReadingMoved(s, block);
    ReadClock(s, clocks[0], block);
    var s1 := Write(s, clocks[0]);
    if s.moved == 516 {
      assert clocks[1..] == [];
      assert Replies(s1, []) == [];
    } else {
      ReadingMoved(s1, block);
      ReadReplies(s1, clocks[1..], block);
    }
  }

  lemma ReadingMoved(s: Spi, block: seq<bv8>)
    requires Reading(s, block)
    ensures s.moved <= 516
  {
    hide Crc16.Crc, BlockOf, InRange;
  }

  /** A write transaction: command 24, its argument and CRC byte, any wait bytes, the token, 512
      data bytes and a trailer. */
  predicate IsWrite(bytes: seq<bv8>, arg: nat, data: seq<bv8>) {
    |bytes| >= 6 && bytes[0] != 0xFF && bytes[0] & 0x3F == WRITE_BLOCK
    && Argument(bytes[1], bytes[2], bytes[3], bytes[4]) == arg
    && TokenAt(bytes[6..]) < |bytes[6..]|
    && |data| == BLOCK
    && var payload := bytes[6..][TokenAt(bytes[6..]) + 1..];
       |payload| == BLOCK + TRAILER && payload[..BLOCK] == data
  }

  /** A read command: command 17 with its argument and CRC byte. */
  predicate IsRead(bytes: seq<bv8>, arg: nat) {
    |bytes| == 6 && bytes[0] != 0xFF && bytes[0] & 0x3F == READ_BLOCK
    && Argument(bytes[1], bytes[2], bytes[3], bytes[4]) == arg
  }

  /** A completed write leaves the port idle, with the block replaced. */
  lemma WriteTransaction(s: Spi, bytes: seq<bv8>, arg: nat, data: seq<bv8>)
    requires !s.lost && s.state == 0 && IsWrite(bytes, arg, data)
    ensures !Run(s, bytes).lost && Run(s, bytes).state == 0 && Run(s, bytes).disk == Written(s.disk, BlockStart(arg), data)
  {
    hide Write, Run, ByteVal, BlockStart;
    var rest := bytes[6..];
    RunSplit(s, bytes, 6);
    CommandPhase(s, bytes[..6]);
    var t := Run(s, bytes[..6]);
    var n := TokenAt(rest);
    ThroughToken(t, rest);
    var u, payload := Run(t, rest[..n + 1]), rest[n + 1..];
    RunSplit(u, payload, BLOCK);
    DataPhase(u, data);
    var w := Run(u, data);
    TrailerPhase(w, payload[BLOCK..]);
  }

  lemma BlockWritten(disk: seq<bv8>, arg: nat, data: seq<bv8>)
    requires InRange(disk, arg) && |data| == BLOCK
    ensures InRange(Written(disk, BlockStart(arg), data), arg)
    ensures BlockOf(Written(disk, BlockStart(arg), data), arg) == data
  {
    hide BlockStart;
  }

  /** The block and the two bytes after it check to zero. */
  lemma AnswerChecks(block: seq<bv8>)
    requires |block| == BLOCK
    ensures |Answer(block)| == READ_CLOCKS && Answer(block)[2..514] == block && Crc16.Crc(Answer(block)[2..516]) == 0
  {
    hide Crc16.Crc, Crc16.High, Crc16.Low;
    CrcAlgebra.AppendedCrcIsZero(block);
    var crc := Crc16.Crc(block);
    assert Answer(block)[2..516] == block + [Crc16.High(crc), Crc16.Low(crc)];
  }

  /** Round trip: 512 bytes written to a block of the disk are what a read of that block answers,
      between a start token and a CRC that checks, in 517 clocks after which the port is idle
      again, and not before. */
  lemma WriteThenRead(s: Spi, write: seq<bv8>, read: seq<bv8>, clocks: seq<bv8>, arg: nat, data: seq<bv8>)
    requires !s.lost && s.state == 0 && InRange(s.disk, arg)
    requires IsWrite(write, arg, data) && IsRead(read, arg) && |clocks| == READ_CLOCKS
    ensures var t := Run(Run(s, write), read);
      Replies(t, clocks) == Answer(data)
      && |Answer(data)| == READ_CLOCKS && Answer(data)[2..514] == data && Crc16.Crc(Answer(data)[2..516]) == 0
      && Run(t, clocks).state == 0
      && forall k :: 0 <= k < READ_CLOCKS ==> Run(t, clocks[..k]).state == 3
  {
    hide Write, Run, Replies, Answer, ByteVal, BlockStart;
    AnswerChecks(data);
    WriteTransaction(s, write, arg, data);
    BlockWritten(s.disk, arg, data);
    var u := Run(s, write);
    CommandPhase(u, read);
    var t := Run(u, read);
    ReadReplies(t, clocks, data);
    assert Answer(data)[0..] == Answer(data);
    ReadPhase(t, clocks);
    forall k | 0 <= k < READ_CLOCKS
      ensures Run(t, clocks[..k]).state == 3
    {
      ReadPhase(t, clocks[..k]);
    }
  }
}
