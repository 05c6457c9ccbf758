/** What the card answers, byte by byte, while a host writes a block. */
module SdReplies {
  import opened SdCard
  import opened SdTransactions
  import opened Words

  /** n times the same reply. */
  function Same(n: nat, reply: bv8): seq<bv8> {
    seq(n, i => reply)
  }

  /** Before the token, and to the token itself: ready once, then idle. */
  function Waiting(waited: bool, n: nat): seq<bv8> {
    seq(n, i requires 0 <= i => if i == 0 && !waited then 0x00 else 0xFF)
  }

  /** Everything a host reads during a write with n bytes between the command and the token: idle, the
      command accepted, ready, the reply to the token held for the data and its CRC, and data accepted. */
  function Response(waited: bool, n: nat): seq<bv8> {
    Same(5, 0xFF) + [0x00] + Waiting(waited, n + 1) + Same(BLOCK + 2, if n == 0 && !waited then 0x00 else 0xFF) + [0x05]
  }

  lemma {:induction false} RepliesConcat(s: Spi, a: seq<bv8>, b: seq<bv8>)
    ensures Replies(s, a + b) == Replies(s, a) + Replies(Run(s, a), b)
    decreases |a|
  {
    hide Write;
    if a == [] {
      assert a + b == b;
    } else {
      assert (a + b)[1..] == a[1..] + b;
      RepliesConcat(Write(s, a[0]), a[1..], b);
    }
  }

  lemma RepliesSplit(s: Spi, bytes: seq<bv8>, n: nat)
    requires n <= |bytes|
    ensures Replies(s, bytes) == Replies(s, bytes[..n]) + Replies(Run(s, bytes[..n]), bytes[n..])
  {
    hide Run, Replies;
    assert bytes == bytes[..n] + bytes[n..];
    RepliesConcat(s, bytes[..n], bytes[n..]);
  }

  lemma OneReply(s: Spi, b: bv8)
    ensures Replies(s, [b]) == [Write(s, b).reply]
  {
    hide Write;
    assert Replies(Write(s, b), []) == [];
  }

  // ----- the command ----------------------------------------------------------------------

  lemma ArgumentReply(s: Spi, b: bv8)
    requires !s.lost && s.state == 1 && s.argBytes < 4
    ensures var t := Write(s, b);
      t.reply == s.reply && !t.lost && t.argBytes == s.argBytes + 1 && t.state == if s.argBytes == 3 then 2 else 1
  {
    hide ByteVal;
  }

  lemma {:induction false} ArgumentReplies(s: Spi, c: seq<bv8>)
    requires !s.lost && s.state == 1 && s.argBytes + |c| == 4
    ensures Replies(s, c) == Same(|c|, s.reply)
    ensures c != [] ==> var t := Run(s, c); !t.lost && t.state == 2
    decreases |c|
  {
    hide Write;
    if c != [] {
      var s1 := Write(s, c[0]);
      ArgumentReply(s, c[0]);
      if |c| == 1 {
        assert c[1..] == [];
      } else {
        ArgumentReplies(s1, c[1..]);
      }
    }
  }

  lemma LastReply(s: Spi, b: bv8)
    requires !s.lost && s.state == 2
    ensures Write(s, b).reply == 0x00
  {
  }

  lemma CommandReplies(s: Spi, c: seq<bv8>)
    requires !s.lost && s.state == 0 && |c| == 6 && c[0] != 0xFF
    ensures Replies(s, c) == Same(5, 0xFF) + [0x00]
  {
    hide Write, Run, Replies;
    var s1 := Write(s, c[0]);
    FirstByte(s, c[0]);
    RepliesSplit(s, c, 1);
    assert c[..1] == [c[0]];
    Run1(s, c[0]);
    OneReply(s, c[0]);
    var arguments := c[1..][..4];
    RepliesSplit(s1, c[1..], 4);
    ArgumentReplies(s1, arguments);
    assert c[1..][4..] == [c[5]];
    OneReply(Run(s1, arguments), c[5]);
    LastReply(Run(s1, arguments), c[5]);
  }

  // ----- the token and the data ---------------------------------------------------------------

  lemma {:induction false} WaitReplies(s: Spi, bytes: seq<bv8>)
    requires !s.lost && s.state == 4 && s.moved == 0 && forall i :: 0 <= i < |bytes| ==> bytes[i] != 0xFE
    ensures Replies(s, bytes) == Waiting(s.waited, |bytes|)
    ensures var t := Run(s, bytes); !t.lost && t.state == 4 && t.moved == 0 && t.waited == (s.waited || bytes != [])
    decreases |bytes|
  {
    if bytes != [] {
      WaitReplies(Write(s, bytes[0]), bytes[1..]);
    }
  }

  lemma TokenReply(s: Spi)
    requires !s.lost && s.state == 4 && s.moved == 0
    ensures Write(s, 0xFE).reply == if s.waited then 0xFF else 0x00
  {
  }

  lemma HeldReply(s: Spi, b: bv8)
    requires !s.lost && s.state == 4 && 1 <= s.moved < 515
    ensures var t := Write(s, b); t.reply == s.reply && !t.lost && t.state == 4 && t.moved == s.moved + 1
  {
    hide BlockStart;
  }

  /** Data and CRC bytes hold the reply. */
  lemma {:induction false} HeldReplies(s: Spi, bytes: seq<bv8>)
    requires !s.lost && s.state == 4 && 1 <= s.moved && s.moved + |bytes| <= 515
    ensures Replies(s, bytes) == Same(|bytes|, s.reply)
    ensures var t := Run(s, bytes); !t.lost && t.state == 4 && t.moved == s.moved + |bytes|
    decreases |bytes|
  {
    hide Write;
    if bytes != [] {
      HeldReply(s, bytes[0]);
      HeldReplies(Write(s, bytes[0]), bytes[1..]);
    }
  }

  lemma AcceptedReply(s: Spi, b: bv8)
    requires !s.lost && s.state == 4 && s.moved == 515
    ensures Write(s, b).reply == 0x05
  {
  }

  lemma DataReplies(s: Spi, data: seq<bv8>)
    requires !s.lost && s.state == 4 && s.moved == 1 && |data| == BLOCK + TRAILER
    ensures Replies(s, data) == Same(BLOCK + 2, s.reply) + [0x05]
  {
    hide Write, Run, Replies, Same;
    RepliesSplit(s, data, BLOCK + 2);
    HeldReplies(s, data[..BLOCK + 2]);
    var v := Run(s, data[..BLOCK + 2]);
    assert data[BLOCK + 2..] == [data[BLOCK + 2]];
    OneReply(v, data[BLOCK + 2]);
    AcceptedReply(v, data[BLOCK + 2]);
  }

  lemma WaitingNext(waited: bool, n: nat)
    ensures Waiting(waited, n + 1) == Waiting(waited, n) + [if n == 0 && !waited then 0x00 else 0xFF]
  {
  }

  lemma ThroughTokenReplies(s: Spi, wait: seq<bv8>)
    requires !s.lost && s.state == 4 && s.moved == 0 && forall i :: 0 <= i < |wait| ==> wait[i] != 0xFE
    ensures Replies(s, wait + [0xFE]) == Waiting(s.waited, |wait| + 1)
    ensures var u := Run(s, wait + [0xFE]);
      !u.lost && u.state == 4 && u.moved == 1 && u.reply == if wait == [] && !s.waited then 0x00 else 0xFF
  {
    hide Write, Run, Replies, Waiting;
    var t := Run(s, wait);
    WaitReplies(s, wait);
    WaitingNext(s.waited, |wait|);
    RepliesConcat(s, wait, [0xFE]);
    RunConcat(s, wait, [0xFE]);
    OneReply(t, 0xFE);
    Run1(t, 0xFE);
    TokenByte(t);
    TokenReply(t);
  }

  /** From the first byte after the command. */
  lemma PayloadReplies(s: Spi, rest: seq<bv8>)
    requires !s.lost && s.state == 4 && s.moved == 0
    requires TokenAt(rest) < |rest| && |rest| == TokenAt(rest) + 1 + BLOCK + TRAILER
    ensures var n := TokenAt(rest);
      Replies(s, rest)
        == Waiting(s.waited, n + 1) + Same(BLOCK + 2, if n == 0 && !s.waited then 0x00 else 0xFF) + [0x05]
  {
    hide Write, Run, Replies, Same, Waiting;
    var n := TokenAt(rest);
    assert rest[..n + 1] == rest[..n] + [0xFE];
    ThroughTokenReplies(s, rest[..n]);
    RepliesSplit(s, rest, n + 1);
    DataReplies(Run(s, rest[..n + 1]), rest[n + 1..]);
  }

  /** The replies to a whole write transaction. */
  lemma WriteReplies(s: Spi, bytes: seq<bv8>, arg: nat, data: seq<bv8>)
    requires !s.lost && s.state == 0 && IsWrite(bytes, arg, data)
    ensures Replies(s, bytes) == Response(s.waited, TokenAt(bytes[6..]))
  {
    hide Write, Run, Replies, ByteVal, Same, Waiting;
    RepliesSplit(s, bytes, 6);
    CommandReplies(s, bytes[..6]);
    CommandPhase(s, bytes[..6]);
    PayloadReplies(Run(s, bytes[..6]), bytes[6..]);
  }
}
