/** The supervisor registers as views of the machine registers. */
module CsrViews {
  import opened Csr

  lemma MergeBits(current: bv32, value: bv32, mask: bv32)
    ensures Merge(current, value, mask) & mask == value & mask
    ensures Merge(current, value, mask) & !mask == current & !mask
  {
  }

  lemma WriteView(f: File, a: bv12, value: bv32, x: bv12)
    requires a == SSTATUS || a == SIE || a == SIP
    ensures Write(f, a, value)(x) == if x == Target(a) then Stored(f, a, value) else f(x)
  {
    hide Stored;
  }

  /** sstatus reads back what was written in its bits, and mstatus keeps every other bit. */
  lemma SstatusView(f: File, mtime: bv64, value: bv32)
    ensures var g := Write(f, SSTATUS, value);
      Read(g, mtime, SSTATUS) == value & SSTATUS_MASK
      && g(MSTATUS) & !SSTATUS_MASK == f(MSTATUS) & !SSTATUS_MASK
      && (forall x: bv12 :: x != MSTATUS ==> g(x) == f(x))
  {
    forall x: bv12
      ensures Write(f, SSTATUS, value)(x) == if x == MSTATUS then Stored(f, SSTATUS, value) else f(x)
    {
      hide Write, Stored;
      WriteView(f, SSTATUS, value, x);
    }
    hide Write, Merge;
    MergeBits(f(MSTATUS), value, SSTATUS_MASK);
  }

  lemma SieParts(f: File, value: bv32, x: bv12)
    ensures Write(f, SIE, value)(x) == if x == MIE then Merge(f(MIE), value, f(MIDELEG)) else f(x)
  {
    hide Merge;
  }

  lemma SieRead(f: File, mtime: bv64, merged: bv32, mask: bv32)
    requires f(MIE) == merged && f(MIDELEG) == mask
    ensures Read(f, mtime, SIE) == merged & mask
  {
  }

  lemma MergeIn(current: bv32, value: bv32, mask: bv32)
    ensures Merge(current, value, mask) & mask == value & mask
  {
  }

  lemma MergeOut(current: bv32, value: bv32, mask: bv32)
    ensures Merge(current, value, mask) & !mask == current & !mask
  {
  }

  /** What sie writes it reads back, in exactly the delegated bits. */
  lemma SieReadsBack(f: File, mtime: bv64, value: bv32)
    ensures Read(Write(f, SIE, value), mtime, SIE) == value & f(MIDELEG)
  {
    assert MIE != MIDELEG;
    hide *;
    SieParts(f, value, MIE);
    SieParts(f, value, MIDELEG);
    SieRead(Write(f, SIE, value), mtime, Merge(f(MIE), value, f(MIDELEG)), f(MIDELEG));
    MergeIn(f(MIE), value, f(MIDELEG));
  }

  /** A write to sie keeps the bits of mie that are not delegated, and every other register. */
  lemma SieKeeps(f: File, value: bv32, x: bv12)
    ensures Write(f, SIE, value)(MIE) & !f(MIDELEG) == f(MIE) & !f(MIDELEG)
    ensures x != MIE ==> Write(f, SIE, value)(x) == f(x)
  {
    hide *;
    SieParts(f, value, MIE);
    SieParts(f, value, x);
    MergeOut(f(MIE), value, f(MIDELEG));
  }

  /** sip writes only the delegated software-writable bits of mip; the timer and machine bits stay. */
  lemma SipView(f: File, value: bv32)
    ensures var g, mask := Write(f, SIP, value), f(MIDELEG) & MIP_WRITABLE;
      g(MIP) & mask == value & mask && g(MIP) & !mask == f(MIP) & !mask
      && (forall x: bv12 :: x != MIP ==> g(x) == f(x))
  {
    forall x: bv12
      ensures Write(f, SIP, value)(x) == if x == MIP then Stored(f, SIP, value) else f(x)
    {
      hide Write, Stored;
      WriteView(f, SIP, value, x);
    }
    hide Write, Merge;
    MergeBits(f(MIP), value, f(MIDELEG) & MIP_WRITABLE);
  }
}
