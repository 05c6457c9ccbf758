/** The walk of section 4.3.2 of the RISC-V Instruction Set Manual, Volume II: Privileged
    Architecture (20211203), as one recursion over the levels, and its agreement with the
    unrolled walk of `translateAddress`. Table and physical addresses have 34 bits there;
    the platform decodes the low 32. */
module Sv32Manual {
  import opened Bus
  import Csr
  import Mmio

  const LEVELS: nat := 2
  const MSTATUS_MXR: bv32 := 0x0008_0000

  /** va.vpn[i]. */
  function Vpn(va: bv32, i: nat): bv34
    requires i < LEVELS
  {
    if i == 1 then ((va >> 22) & 0x3FF) as bv34 else ((va >> 12) & 0x3FF) as bv34
  }

  function Decoded(pa: bv34): bv32 {
    (pa & 0xFFFF_FFFF) as bv32
  }

  /** pte.ppn. */
  function Ppn(pte: bv32): bv34 {
    ((pte >> 10) & 0x3F_FFFF) as bv34
  }

  /** Step 5: the access is allowed by R, W, X, U, given mode, SUM and MXR. */
  predicate Allowed(mode: Csr.Mode, mstatus: bv32, pte: bv32, kind: AccessType) {
    && (match kind
        case InstructionFetch => pte & PTE_X != 0
        case Load => pte & PTE_R != 0 || (mstatus & MSTATUS_MXR != 0 && pte & PTE_X != 0)
        case Store => pte & PTE_W != 0)
    && (mode == Csr.USER ==> pte & PTE_U != 0)
    && (mode == Csr.SUPERVISOR && pte & PTE_U != 0 ==> kind != InstructionFetch && mstatus & MSTATUS_SUM != 0)
  }

  /** Step 6: pte.ppn[i-1:0] is zero. */
  predicate Aligned(pte: bv32, i: nat) {
    i == 0 || (pte >> 10) & 0x3FF == 0
  }

  /** Step 7: A is set, and D for a store. */
  predicate Marked(pte: bv32, kind: AccessType) {
    pte & PTE_A != 0 && (kind == Store ==> pte & PTE_D != 0)
  }

  /** Step 8: the translated physical address. */
  function LeafAddress(pte: bv32, va: bv32, i: nat): bv34 {
    if i == 0 then (Ppn(pte) << 12) | ((va & 0xFFF) as bv34)
    else ((Ppn(pte) >> 10) << 22) | ((va & 0x3F_FFFF) as bv34)
  }

  /** Step 3: not valid, or the reserved encoding writable but not readable. */
  predicate Invalid(pte: bv32) {
    pte & PTE_V == 0 || (pte & PTE_R == 0 && pte & PTE_W != 0)
  }

  /** Steps 2 to 8 from the table at `a`, level `i`: the physical address, None on a page fault. */
  function Walk(m: Mem, mode: Csr.Mode, mstatus: bv32, va: bv32, kind: AccessType, a: bv34, i: nat): (Mmio.Option<bv34>, Mem)
    requires i < LEVELS
    decreases i
  {
    var (pte, m1) := ReadPhysical(m, Decoded(a + (Vpn(va, i) << 2)));
    if Invalid(pte) then (Mmio.None, m1)
    else if pte & PTE_R != 0 || pte & PTE_X != 0 then
      if Allowed(mode, mstatus, pte, kind) && Aligned(pte, i) && Marked(pte, kind) then
        (Mmio.Some(LeafAddress(pte, va, i)), m1)
      else (Mmio.None, m1)
    else if i == 0 then (Mmio.None, m1)
    else Walk(m1, mode, mstatus, va, kind, Ppn(pte) << 12, i - 1)
  }

  function RootBase(satp: bv32): bv34 {
    ((satp & 0x3F_FFFF) as bv34) << 12
  }

  /** Step 1: start at satp.ppn x PAGESIZE, at the top level. */
  function ManualTranslate(m: Mem, mode: Csr.Mode, mstatus: bv32, va: bv32, kind: AccessType): (Mmio.Option<bv34>, Mem) {
    Walk(m, mode, mstatus, va, kind, RootBase(m.satp), LEVELS - 1)
  }

  /** The root entry the walk reads first. */
  function RootEntry(m: Mem, va: bv32): bv32 {
    ReadPhysical(m, Pte1Address(m.satp, va)).0
  }

  /** A root entry with W but neither R nor X: reserved by the manual, a pointer to the source. */
  predicate WriteOnly(pte1: bv32) {
    pte1 & PTE_V != 0 && pte1 & PTE_R == 0 && pte1 & PTE_W != 0 && pte1 & PTE_X == 0
  }

  /** Same fault, or same address on the 32-bit bus. */
  predicate SameAnswer(code: Access<bv32>, manual: Mmio.Option<bv34>, va: bv32, kind: AccessType) {
    match manual
    case None => code.PageFault? && code.address == va && code.kind == kind
    case Some(pa) => code.Done? && code.value == Decoded(pa)
  }

  /** The same for a frame the source has found, before the offset is added. */
  predicate SameFrame(frame: Mmio.Option<bv32>, manual: Mmio.Option<bv34>, va: bv32) {
    match manual
    case None => frame.None?
    case Some(pa) => frame.Some? && Compose(frame.value, va) == Decoded(pa)
  }

  lemma RootAddress(satp: bv32, va: bv32)
    ensures Decoded(RootBase(satp) + (Vpn(va, 1) << 2)) == Pte1Address(satp, va)
  {
  }

  lemma TableAddress(pte1: bv32, va: bv32)
    ensures Decoded((Ppn(pte1) << 12) + (Vpn(va, 0) << 2)) == Pte0Address(pte1, va)
  {
  }

  lemma PageAddress(pte: bv32, va: bv32)
    ensures Decoded(LeafAddress(pte, va, 0)) == Compose((pte >> 10) & 0x3F_FFFF, va)
  {
  }

  lemma SuperpageAddress(pte: bv32, va: bv32)
    requires Aligned(pte, 1)
    ensures Decoded(LeafAddress(pte, va, 1)) == Compose(((pte >> 10) & 0x3F_FFFF) | ((va >> 12) & 0x3FF), va)
  {
  }

  /** What the manual requires of an entry it has taken for a leaf. */
  predicate LeafOk(mode: Csr.Mode, mstatus: bv32, pte: bv32, kind: AccessType, i: nat) {
    !Invalid(pte) && (pte & PTE_R != 0 || pte & PTE_X != 0)
    && Allowed(mode, mstatus, pte, kind) && Aligned(pte, i) && Marked(pte, kind)
  }

  lemma PageChecks(mode: Csr.Mode, mstatus: bv32, pte: bv32, kind: AccessType)
    requires mstatus & MSTATUS_MXR == 0
    ensures PageFaults(mode, mstatus, pte, kind) <==> !LeafOk(mode, mstatus, pte, kind, 0)
  {
  }

  lemma SuperpageChecks(mode: Csr.Mode, mstatus: bv32, pte: bv32, kind: AccessType)
    requires mstatus & MSTATUS_MXR == 0
    requires pte & PTE_V != 0 && IsLeaf(pte)
    ensures SuperpageFaults(mode, mstatus, pte, kind) <==> !LeafOk(mode, mstatus, pte, kind, 1)
  {
  }

  /** A walk that is at the last level is one leaf check. */
  lemma WalkLast(m: Mem, mode: Csr.Mode, mstatus: bv32, va: bv32, kind: AccessType, a: bv34, pte: bv32, m1: Mem)
    requires (pte, m1) == ReadPhysical(m, Decoded(a + (Vpn(va, 0) << 2)))
    ensures Walk(m, mode, mstatus, va, kind, a, 0)
         == (if LeafOk(mode, mstatus, pte, kind, 0) then Mmio.Some(LeafAddress(pte, va, 0)) else Mmio.None, m1)
  {
    hide ReadPhysical, Decoded, LeafAddress, Vpn, Allowed, Aligned, Marked, Invalid;
    assert Aligned(pte, 0) by { AlignedAtZero(pte); }
  }

  lemma AlignedAtZero(pte: bv32)
    ensures Aligned(pte, 0)
  {
  }

  lemma FrameLast(m: Mem, mode: Csr.Mode, mstatus: bv32, pte1: bv32, va: bv32, kind: AccessType, pte0: bv32, m0: Mem)
    requires pte1 & PTE_V != 0 && !IsLeaf(pte1)
    requires (pte0, m0) == ReadPhysical(m, Pte0Address(pte1, va))
    ensures FrameBelow(m, mode, mstatus, pte1, va, kind)
         == (if PageFaults(mode, mstatus, pte0, kind) then Mmio.None else Mmio.Some((pte0 >> 10) & 0x3F_FFFF), m0)
  {
    hide ReadPhysical, PageFaults, SuperpageFaults, IsLeaf, Pte0Address;
  }

  /** The second level: below a pointer the two walks do the same. */
  lemma LastLevel(m: Mem, mode: Csr.Mode, mstatus: bv32, pte1: bv32, va: bv32, kind: AccessType)
    requires mstatus & MSTATUS_MXR == 0
    requires pte1 & PTE_V != 0 && !IsLeaf(pte1)
    ensures var code, manual := FrameBelow(m, mode, mstatus, pte1, va, kind), Walk(m, mode, mstatus, va, kind, Ppn(pte1) << 12, 0);
      SameFrame(code.0, manual.0, va) && code.1 == manual.1
  {
    var (pte0, m0) := ReadPhysical(m, Pte0Address(pte1, va));
    FrameLast(m, mode, mstatus, pte1, va, kind, pte0, m0);
    TableAddress(pte1, va);
    WalkLast(m, mode, mstatus, va, kind, Ppn(pte1) << 12, pte0, m0);
    hide *;
    PageChecks(mode, mstatus, pte0, kind);
    PageAddress(pte0, va);
    assert SameFrame(FrameBelow(m, mode, mstatus, pte1, va, kind).0, Walk(m, mode, mstatus, va, kind, Ppn(pte1) << 12, 0).0, va);
  }

  /** The top level of the manual's walk, for a pointer and for everything else. */
  lemma WalkAtTop(m: Mem, mode: Csr.Mode, mstatus: bv32, va: bv32, kind: AccessType, a: bv34, pte: bv32, m1: Mem)
    requires (pte, m1) == ReadPhysical(m, Decoded(a + (Vpn(va, 1) << 2)))
    requires !Invalid(pte) && !IsLeaf(pte)
    ensures Walk(m, mode, mstatus, va, kind, a, 1) == Walk(m1, mode, mstatus, va, kind, Ppn(pte) << 12, 0)
  {
    hide ReadPhysical, Decoded, Ppn, LeafAddress, Vpn, Allowed, Aligned, Marked, Invalid;
  }

  lemma LeafAtTop(m: Mem, mode: Csr.Mode, mstatus: bv32, va: bv32, kind: AccessType, a: bv34, pte: bv32, m1: Mem)
    requires (pte, m1) == ReadPhysical(m, Decoded(a + (Vpn(va, 1) << 2)))
    requires Invalid(pte) || IsLeaf(pte)
    ensures Walk(m, mode, mstatus, va, kind, a, 1)
         == (if LeafOk(mode, mstatus, pte, kind, 1) then Mmio.Some(LeafAddress(pte, va, 1)) else Mmio.None, m1)
  {
    hide ReadPhysical, Decoded, Ppn, LeafAddress, Vpn, Allowed, Aligned, Marked, Invalid;
  }

  lemma WalkPointer(m: Mem, mode: Csr.Mode, mstatus: bv32, va: bv32, kind: AccessType, pte: bv32, m1: Mem)
    requires (pte, m1) == ReadPhysical(m, Pte1Address(m.satp, va))
    requires !Invalid(pte) && !IsLeaf(pte)
    ensures ManualTranslate(m, mode, mstatus, va, kind) == Walk(m1, mode, mstatus, va, kind, Ppn(pte) << 12, 0)
  {
    hide Walk, RootBase, Decoded, Vpn, Ppn, ReadPhysical, Pte1Address, Invalid, IsLeaf;
    RootAddress(m.satp, va);
    WalkAtTop(m, mode, mstatus, va, kind, RootBase(m.satp), pte, m1);
  }

  lemma WalkTopLeaf(m: Mem, mode: Csr.Mode, mstatus: bv32, va: bv32, kind: AccessType, pte: bv32, m1: Mem)
    requires (pte, m1) == ReadPhysical(m, Pte1Address(m.satp, va))
    requires Invalid(pte) || IsLeaf(pte)
    ensures ManualTranslate(m, mode, mstatus, va, kind)
         == (if LeafOk(mode, mstatus, pte, kind, 1) then Mmio.Some(LeafAddress(pte, va, 1)) else Mmio.None, m1)
  {
    hide Walk, RootBase, Decoded, Vpn, Ppn, ReadPhysical, Pte1Address, Invalid, IsLeaf, LeafOk, LeafAddress;
    RootAddress(m.satp, va);
    LeafAtTop(m, mode, mstatus, va, kind, RootBase(m.satp), pte, m1);
  }

  lemma RootRead(m: Mem, va: bv32)
    ensures ReadPhysical(m, Pte1Address(m.satp, va)) == (RootEntry(m, va), ReadPhysical(m, Pte1Address(m.satp, va)).1)
  {
    hide ReadPhysical, Pte1Address;
  }

  lemma FrameIs(m: Mem, mode: Csr.Mode, mstatus: bv32, va: bv32, kind: AccessType, pte1: bv32, m1: Mem)
    requires (pte1, m1) == ReadPhysical(m, Pte1Address(m.satp, va))
    ensures Frame(m, mode, mstatus, va, kind) == FrameBelow(m1, mode, mstatus, pte1, va, kind)
  {
    hide ReadPhysical, FrameBelow, Pte1Address;
  }

  lemma FrameInvalid(m: Mem, mode: Csr.Mode, mstatus: bv32, va: bv32, kind: AccessType, pte1: bv32, m1: Mem)
    requires (pte1, m1) == ReadPhysical(m, Pte1Address(m.satp, va))
    requires pte1 & PTE_V == 0
    ensures Frame(m, mode, mstatus, va, kind) == (Mmio.None, m1)
  {
    hide ReadPhysical, PageFaults, SuperpageFaults, IsLeaf, Pte0Address, Pte1Address;
  }

  lemma FrameSuperpage(m: Mem, mode: Csr.Mode, mstatus: bv32, va: bv32, kind: AccessType, pte1: bv32, m1: Mem)
    requires (pte1, m1) == ReadPhysical(m, Pte1Address(m.satp, va))
    requires pte1 & PTE_V != 0 && IsLeaf(pte1)
    ensures Frame(m, mode, mstatus, va, kind)
         == (if SuperpageFaults(mode, mstatus, pte1, kind) then Mmio.None
             else Mmio.Some(((pte1 >> 10) & 0x3F_FFFF) | ((va >> 12) & 0x3FF)), m1)
  {
    hide ReadPhysical, PageFaults, SuperpageFaults, IsLeaf, Pte0Address, Pte1Address;
  }

  lemma EntryKinds(pte: bv32)
    ensures pte & PTE_V == 0 ==> Invalid(pte)
    ensures !WriteOnly(pte) && pte & PTE_V != 0 && !IsLeaf(pte) ==> !Invalid(pte)
    ensures WriteOnly(pte) ==> Invalid(pte) && pte & PTE_V != 0 && !IsLeaf(pte)
  {
  }

  /** From the root: the same frame, unless the root entry is write-only. */
  lemma FirstLevel(m: Mem, mode: Csr.Mode, mstatus: bv32, va: bv32, kind: AccessType)
    requires mstatus & MSTATUS_MXR == 0
    requires !WriteOnly(RootEntry(m, va))
    ensures var code, manual := Frame(m, mode, mstatus, va, kind), ManualTranslate(m, mode, mstatus, va, kind);
      SameFrame(code.0, manual.0, va) && code.1 == manual.1
  {
    var (pte1, m1) := ReadPhysical(m, Pte1Address(m.satp, va));
    assert pte1 == RootEntry(m, va);
    assert Frame(m, mode, mstatus, va, kind) == FrameBelow(m1, mode, mstatus, pte1, va, kind);
    hide *;
    EntryKinds(pte1);
    if pte1 & PTE_V != 0 && !IsLeaf(pte1) {
      WalkPointer(m, mode, mstatus, va, kind, pte1, m1);
      LastLevel(m1, mode, mstatus, pte1, va, kind);
    } else {
      WalkTopLeaf(m, mode, mstatus, va, kind, pte1, m1);
      if pte1 & PTE_V == 0 {
        FrameInvalid(m, mode, mstatus, va, kind, pte1, m1);
        InvalidIsNotOk(mode, mstatus, pte1, kind);
      } else {
        FrameSuperpage(m, mode, mstatus, va, kind, pte1, m1);
        SuperpageChecks(mode, mstatus, pte1, kind);
        LeafIsAligned(mode, mstatus, pte1, kind);
        if LeafOk(mode, mstatus, pte1, kind, 1) {
          SuperpageAddress(pte1, va);
        }
      }
    }
  }

  lemma LeafIsAligned(mode: Csr.Mode, mstatus: bv32, pte: bv32, kind: AccessType)
    ensures LeafOk(mode, mstatus, pte, kind, 1) ==> Aligned(pte, 1)
  {
    hide Invalid, Allowed, Aligned, Marked;
  }

  lemma InvalidIsNotOk(mode: Csr.Mode, mstatus: bv32, pte: bv32, kind: AccessType)
    requires Invalid(pte)
    ensures !LeafOk(mode, mstatus, pte, kind, 1)
  {
    hide Invalid, Allowed, Aligned, Marked;
  }

  /** Agreement, for every memory (devices included), address, mode and access type: outside
      the write-only root entries the source returns what the manual's walk returns, and has
      moved the memory system in the same way. */
  lemma TranslateAgrees(m: Mem, h: Hart, va: bv32, kind: AccessType)
    requires !IsBare(m.satp, h, kind) && h.mstatus & MSTATUS_MXR == 0
    requires !WriteOnly(RootEntry(m, va))
    ensures var manual := ManualTranslate(m, EffectiveMode(h, kind), h.mstatus, va, kind);
      SameAnswer(Translate(m, h, va, kind), manual.0, va, kind) && Translate(m, h, va, kind).mem == manual.1
  {
    hide IsBare, Frame, ManualTranslate, EffectiveMode, Compose, Decoded, WriteOnly, RootEntry;
    FirstLevel(m, EffectiveMode(h, kind), h.mstatus, va, kind);
  }

  /** The entry the source consults below the root entry. */
  function SecondEntry(m: Mem, va: bv32): bv32 {
    var (pte1, m1) := ReadPhysical(m, Pte1Address(m.satp, va));
    ReadPhysical(m1, Pte0Address(pte1, va)).0
  }

  /** The manual faults on a write-only root entry; the source goes on to the second level. */
  lemma WriteOnlyIsFollowed(m: Mem, mode: Csr.Mode, mstatus: bv32, va: bv32, kind: AccessType)
    requires mstatus & MSTATUS_MXR == 0
    requires WriteOnly(RootEntry(m, va))
    ensures ManualTranslate(m, mode, mstatus, va, kind).0 == Mmio.None
    ensures Frame(m, mode, mstatus, va, kind).0.Some? <==> LeafOk(mode, mstatus, SecondEntry(m, va), kind, 0)
  {
    var (pte1, m1) := ReadPhysical(m, Pte1Address(m.satp, va));
    var (pte0, m0) := ReadPhysical(m1, Pte0Address(pte1, va));
    assert pte1 == RootEntry(m, va) && pte0 == SecondEntry(m, va);
    assert Frame(m, mode, mstatus, va, kind) == FrameBelow(m1, mode, mstatus, pte1, va, kind);
    hide *;
    EntryKinds(pte1);
    WalkTopLeaf(m, mode, mstatus, va, kind, pte1, m1);
    InvalidIsNotOk(mode, mstatus, pte1, kind);
    FrameLast(m1, mode, mstatus, pte1, va, kind, pte0, m0);
    PageChecks(mode, mstatus, pte0, kind);
  }

  /** Exactly when the source gives the manual's answer. */
  lemma TranslateAgreesExactly(m: Mem, h: Hart, va: bv32, kind: AccessType)
    requires !IsBare(m.satp, h, kind) && h.mstatus & MSTATUS_MXR == 0
    ensures var mode := EffectiveMode(h, kind);
      SameAnswer(Translate(m, h, va, kind), ManualTranslate(m, mode, h.mstatus, va, kind).0, va, kind)
      <==> !(WriteOnly(RootEntry(m, va)) && LeafOk(mode, h.mstatus, SecondEntry(m, va), kind, 0))
  {
    hide IsBare, Frame, ManualTranslate, EffectiveMode, Compose, Decoded, WriteOnly, RootEntry, SecondEntry, LeafOk;
    var mode := EffectiveMode(h, kind);
    if WriteOnly(RootEntry(m, va)) {
      WriteOnlyIsFollowed(m, mode, h.mstatus, va, kind);
    } else {
      TranslateAgrees(m, h, va, kind);
    }
  }

  lemma PageFits(ppn: bv34, offset: bv34)
    requires ppn < 0x40_0000 && offset < 0x1000
    ensures (ppn << 12) | offset < 0x1_0000_0000 <==> ppn < 0x10_0000
  {
  }

  lemma SuperpageFits(ppn: bv34, offset: bv34)
    requires ppn < 0x40_0000 && offset < 0x40_0000
    ensures ((ppn >> 10) << 22) | offset < 0x1_0000_0000 <==> ppn < 0x10_0000
  {
  }

  lemma DecodedFits(pa: bv34)
    ensures (Decoded(pa) as bv34) == pa <==> pa < 0x1_0000_0000
  {
  }

  lemma PpnFits(pte: bv32)
    ensures Ppn(pte) < 0x40_0000
  {
  }

  /** The 34-bit address of the manual is the 32-bit one, zero-extended, if and only if the page
      number is below 2^20. */
  lemma TruncationExactly(pte: bv32, va: bv32, i: nat)
    requires i < LEVELS
    ensures (Decoded(LeafAddress(pte, va, i)) as bv34) == LeafAddress(pte, va, i) <==> Ppn(pte) < 0x10_0000
  {
    PpnFits(pte);
    hide Ppn, Decoded;
    if i == 0 {
      PageFits(Ppn(pte), (va & 0xFFF) as bv34);
    } else {
      SuperpageFits(Ppn(pte), (va & 0x3F_FFFF) as bv34);
    }
    DecodedFits(LeafAddress(pte, va, i));
  }
}
