/** Which bytes a store writes, and what the reservation check sees of it. */
module StoredBytes {
  import opened Isa
  import opened Machine
  import opened Words
  import Bus

  function At(a: bv32, k: bv32): bv32 {
    a + k
  }

  /** x is one of the bytes the store `op` at `a` writes, modulo 2^32. */
  predicate Covers(op: SOp, a: bv32, x: bv32) {
    || x == At(a, 0)
    || (op != SB && x == At(a, 1))
    || (op == SW && (x == At(a, 2) || x == At(a, 3)))
  }

  /** From `m` to `n` RAM differs at most in the bytes of that store. */
  ghost predicate ChangesOnly(m: Bus.Mem, n: Bus.Mem, op: SOp, a: bv32) {
    forall x: bv32 :: n.ram(x) != m.ram(x) ==> Covers(op, a, x)
  }

  /** A word no wrapping store can touch, and that does not wrap itself. */
  predicate Unwrapped(a: bv32) {
    3 <= a <= 0xFFFF_FFFC
  }

  /** The reservation check sees every store that writes a byte of the word at `r`. */
  ghost predicate AlwaysSeen(r: bv32) {
    forall op: SOp, a: bv32, k: bv32 :: k < 4 && Covers(op, a, At(r, k)) ==> Seen(op, a, r)
  }

  // ----- what storing changes -----------------------------------------------------

  lemma SetByteChanges(m: Bus.Mem, n: Bus.Mem, op: SOp, a: bv32, x: bv32, b: bv8)
    requires ChangesOnly(m, n, op, a) && Covers(op, a, x)
    ensures ChangesOnly(m, n.(ram := Bus.SetByte(n.ram, x, b)), op, a)
  {
    hide Covers;
  }

  lemma NothingChanges(m: Bus.Mem, op: SOp, a: bv32)
    ensures ChangesOnly(m, m, op, a)
  {
    hide Covers;
  }

  /** Only RAM counts. */
  lemma StillChangesOnly(m: Bus.Mem, n: Bus.Mem, p: Bus.Mem, op: SOp, a: bv32)
    requires ChangesOnly(m, n, op, a) && p.ram == n.ram
    ensures ChangesOnly(m, p, op, a)
  {
    hide Covers;
  }

  lemma CoversFirst(op: SOp, a: bv32)
    ensures Covers(op, a, a)
  {
  }

  lemma CoversSecond(op: SOp, a: bv32)
    requires op != SB
    ensures Covers(op, a, a + 1)
  {
  }

  lemma CoversThird(a: bv32)
    ensures Covers(SW, a, a + 2)
  {
  }

  lemma CoversFourth(a: bv32)
    ensures Covers(SW, a, a + 3)
  {
  }

  lemma SetHalfChanges(m: Bus.Mem, n: Bus.Mem, op: SOp, a: bv32, value: bv32)
    requires ChangesOnly(m, n, op, a) && op != SB
    ensures ChangesOnly(m, n.(ram := Bus.SetHalf(n.ram, a, value)), op, a)
  {
    hide ChangesOnly, Covers, At, Bus.SetByte, ByteOf;
    CoversFirst(op, a);
    CoversSecond(op, a);
    SetByteChanges(m, n, op, a, a, ByteOf(value, 0));
    SetByteChanges(m, n.(ram := Bus.SetByte(n.ram, a, ByteOf(value, 0))), op, a, a + 1, ByteOf(value, 1));
  }

  lemma SetWordChanges(m: Bus.Mem, n: Bus.Mem, a: bv32, value: bv32)
    requires ChangesOnly(m, n, SW, a)
    ensures ChangesOnly(m, n.(ram := Bus.SetWord(n.ram, a, value)), SW, a)
  {
    hide ChangesOnly, Covers, At, Bus.SetByte, Bus.SetHalf, ByteOf;
    CoversThird(a);
    CoversFourth(a);
    SetHalfChanges(m, n, SW, a, value);
    var n2 := n.(ram := Bus.SetHalf(n.ram, a, value));
    SetByteChanges(m, n2, SW, a, a + 2, ByteOf(value, 2));
    SetByteChanges(m, n2.(ram := Bus.SetByte(n2.ram, a + 2, ByteOf(value, 2))), SW, a, a + 3, ByteOf(value, 3));
  }

  // ----- words apart from a store ------------------------------------------------

  lemma ByteInside(d: bv32, r: bv32)
    requires Unwrapped(r) && d < 4
    ensures Overlaps(r + d, 1, r)
  {
  }

  lemma HalfInside(d: bv32, r: bv32)
    requires Unwrapped(r) && d < 4
    ensures Overlaps(r + d, 2, r)
  {
  }

  lemma WordInside(d: bv32, r: bv32)
    requires Unwrapped(r) && d < 4
    ensures Overlaps(r + d, 4, r)
  {
  }

  lemma HalfBefore(r: bv32)
    requires Unwrapped(r)
    ensures Overlaps(r - 1, 2, r)
  {
  }

  lemma WordBefore1(r: bv32)
    requires Unwrapped(r)
    ensures Overlaps(r - 1, 4, r)
  {
  }

  lemma WordBefore2(r: bv32)
    requires Unwrapped(r)
    ensures Overlaps(r - 2, 4, r)
  {
  }

  lemma WordBefore3(r: bv32)
    requires Unwrapped(r)
    ensures Overlaps(r - 3, 4, r)
  {
  }

  /** A store is seen by the reservation check. */
  predicate Seen(op: SOp, a: bv32, r: bv32) {
    Overlaps(a, StoreSize(op), r)
  }

  lemma StartsInside(op: SOp, d: bv32, r: bv32)
    requires Unwrapped(r) && d < 4
    ensures Seen(op, At(r, d), r)
  {
    hide Unwrapped, Overlaps;
    match op
    case SB => ByteInside(d, r);
    case SH => HalfInside(d, r);
    case SW => WordInside(d, r);
  }

  lemma Cancel0(a: bv32, r: bv32, k: bv32)
    requires At(a, 0) == At(r, k)
    ensures a == At(r, k - 0)
  {
  }

  lemma Cancel1(a: bv32, r: bv32, k: bv32)
    requires At(a, 1) == At(r, k)
    ensures a == At(r, k - 1)
  {
  }

  lemma Cancel2(a: bv32, r: bv32, k: bv32)
    requires At(a, 2) == At(r, k)
    ensures a == At(r, k - 2)
  {
  }

  lemma Cancel3(a: bv32, r: bv32, k: bv32)
    requires At(a, 3) == At(r, k)
    ensures a == At(r, k - 3)
  {
  }

  lemma StartsBefore(op: SOp, r: bv32)
    requires Unwrapped(r)
    ensures op != SB ==> Seen(op, At(r, 0xFFFF_FFFF), r)
    ensures op == SW ==> Seen(op, At(r, 0xFFFF_FFFE), r) && Seen(op, At(r, 0xFFFF_FFFD), r)
  {
    BeforeIsMinus(r);
    hide Unwrapped, Overlaps, At;
    HalfBefore(r);
    WordBefore1(r);
    WordBefore2(r);
    WordBefore3(r);
  }

  lemma BeforeIsMinus(r: bv32)
    ensures At(r, 0xFFFF_FFFF) == r - 1 && At(r, 0xFFFF_FFFE) == r - 2 && At(r, 0xFFFF_FFFD) == r - 3
  {
  }

  /** A store that writes byte k of the word is seen. */
  lemma ByteHits(op: SOp, a: bv32, r: bv32, k: bv32)
    requires Unwrapped(r) && k < 4 && Covers(op, a, At(r, k))
    ensures Seen(op, a, r)
  {
    hide Unwrapped, At, Seen;
    StartsBefore(op, r);
    if At(a, 0) == At(r, k) {
      Cancel0(a, r, k);
      StartsInside(op, k - 0, r);
    } else if At(a, 1) == At(r, k) {
      Cancel1(a, r, k);
      if k >= 1 { StartsInside(op, k - 1, r); }
    } else if At(a, 2) == At(r, k) {
      Cancel2(a, r, k);
      if k >= 2 { StartsInside(op, k - 2, r); }
    } else {
      Cancel3(a, r, k);
      if k >= 3 { StartsInside(op, k - 3, r); }
    }
  }

  lemma ByteKept(m: Bus.Mem, n: Bus.Mem, op: SOp, a: bv32, r: bv32, k: bv32)
    requires ChangesOnly(m, n, op, a) && Unwrapped(r) && k < 4 && !Seen(op, a, r)
    ensures n.ram(At(r, k)) == m.ram(At(r, k))
  {
    hide Covers, Unwrapped, Seen, At;
    if Covers(op, a, At(r, k)) {
      ByteHits(op, a, r, k);
    }
  }

  lemma ByteAt0(ram: Bus.Ram, r: bv32)
    ensures ram(At(r, 0)) == ram(r)
  {
  }

  lemma ByteAt1(ram: Bus.Ram, r: bv32)
    ensures ram(At(r, 1)) == ram(r + 1)
  {
  }

  lemma ByteAt2(ram: Bus.Ram, r: bv32)
    ensures ram(At(r, 2)) == ram(r + 2)
  {
  }

  lemma ByteAt3(ram: Bus.Ram, r: bv32)
    ensures ram(At(r, 3)) == ram(r + 3)
  {
  }

  lemma WordIs(ram: Bus.Ram, r: bv32)
    ensures Bus.GetWord(ram, r) == FromBytes(ram(r), ram(r + 1), ram(r + 2), ram(r + 3))
  {
    hide FromBytes;
  }

  lemma WordBytesAt(ram: Bus.Ram, r: bv32)
    ensures Bus.GetWord(ram, r) == FromBytes(ram(At(r, 0)), ram(At(r, 1)), ram(At(r, 2)), ram(At(r, 3)))
  {
    hide *;
    WordIs(ram, r);
    ByteAt0(ram, r);
    ByteAt1(ram, r);
    ByteAt2(ram, r);
    ByteAt3(ram, r);
  }

  /** A store the reservation check does not see leaves an unwrapped word alone. */
  lemma UnseenKeepsWord(m: Bus.Mem, n: Bus.Mem, op: SOp, a: bv32, r: bv32)
    requires ChangesOnly(m, n, op, a) && Unwrapped(r) && !Seen(op, a, r)
    ensures Bus.GetWord(n.ram, r) == Bus.GetWord(m.ram, r)
  {
    hide Unwrapped, Seen, At, ChangesOnly, FromBytes, Bus.GetWord;
    ByteKept(m, n, op, a, r, 0);
    ByteKept(m, n, op, a, r, 1);
    ByteKept(m, n, op, a, r, 2);
    ByteKept(m, n, op, a, r, 3);
    WordBytesAt(m.ram, r);
    WordBytesAt(n.ram, r);
  }

  // ----- the words the check protects ----------------------------------------------

  /** A store that writes byte k of the word at `r` and wraps past 2^32, or meets a word that does. */
  function WrappingOp(r: bv32): SOp {
    if r < 3 then SW else SB
  }

  function WrappingAddress(r: bv32): bv32 {
    if r < 3 then r - 3 else At(r, 3)
  }

  function WrappedByte(r: bv32): (k: bv32)
    ensures k < 4
  {
    if r < 3 then 0 else 3
  }

  lemma WordWraps(r: bv32)
    requires r < 3
    ensures At(r, 0) == At(r - 3, 3) && !Overlaps(r - 3, 4, r)
  {
  }

  lemma EndWraps(r: bv32)
    requires r > 0xFFFF_FFFC
    ensures At(r, 3) == At(At(r, 3), 0) && !Overlaps(At(r, 3), 1, r)
  {
  }

  /** Every other word has a store that writes a byte of it unseen. */
  lemma WrapsUnseen(r: bv32)
    requires !Unwrapped(r)
    ensures Covers(WrappingOp(r), WrappingAddress(r), At(r, WrappedByte(r))) && !Seen(WrappingOp(r), WrappingAddress(r), r)
  {
    if r < 3 {
      WordWraps(r);
    } else {
      EndWraps(r);
    }
    hide At, Overlaps;
  }

  /** The check sees every store to a word if and only if the word is unwrapped. */
  lemma UnwrappedExactly(r: bv32)
    ensures Unwrapped(r) <==> AlwaysSeen(r)
  {
    if Unwrapped(r) {
      forall op: SOp, a: bv32, k: bv32 | k < 4 && Covers(op, a, At(r, k))
        ensures Seen(op, a, r)
      {
        hide *;
        ByteHits(op, a, r, k);
      }
    } else {
      WrapsUnseen(r);
    }
    hide Unwrapped, Seen, At, Covers;
  }
}
