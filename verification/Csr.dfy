/** The control and status registers. */
module Csr {
  import opened Words

  /** A register file as a function of the 12-bit register number. */
  type File = bv12 -> bv32

  /** Privilege levels, numbered as in mstatus.MPP; 2 is reserved. */
  type Mode = bv2
  const USER: Mode := 0
  const SUPERVISOR: Mode := 1
  const RESERVED: Mode := 2
  const MACHINE: Mode := 3

  const MSTATUS: bv12 := 0x300
  const MISA: bv12 := 0x301
  const MEDELEG: bv12 := 0x302
  const MIDELEG: bv12 := 0x303
  const MIE: bv12 := 0x304
  const MTVEC: bv12 := 0x305
  const MEPC: bv12 := 0x341
  const MCAUSE: bv12 := 0x342
  const MTVAL: bv12 := 0x343
  const MIP: bv12 := 0x344
  const SSTATUS: bv12 := 0x100
  const SIE: bv12 := 0x104
  const STVEC: bv12 := 0x105
  const SEPC: bv12 := 0x141
  const SCAUSE: bv12 := 0x142
  const STVAL: bv12 := 0x143
  const SIP: bv12 := 0x144
  const STIMECMP: bv12 := 0x14D
  const STIMECMPH: bv12 := 0x15D
  const SATP: bv12 := 0x180

  /** SIE, MIE, SPIE, MPIE, SPP, MPP, FS, SUM. */
  const MSTATUS_MASK: bv32 := 0x0004_79AA
  /** SIE, SPIE, SPP, FS, SUM. */
  const SSTATUS_MASK: bv32 := 0x0004_6122
  const MPP_MASK: bv32 := 0x0000_1800
  const MPP_RESERVED: bv32 := 0x0000_1000
  const MIP_WRITABLE: bv32 := 0x0000_0222
  /** RV32 with I, M, A, S and U. */
  const MISA_VALUE: bv32 := 0x4014_1101

  /** Read-only CSR numbers have both top bits set. */
  predicate IsReadOnly(a: bv12) {
    a >> 10 == 3
  }

  /** The lowest privilege level a CSR number admits. */
  function MinMode(a: bv12): Mode {
    ((a >> 8) & 3) as bv2
  }

  predicate CanAccess(a: bv12, mode: Mode, isWrite: bool) {
    mode >= MinMode(a) && !(isWrite && IsReadOnly(a))
  }

  /** cycle, time and instret. */
  predicate IsCounter(a: bv12) {
    a == 0xC00 || a == 0xC01 || a == 0xC02
  }

  predicate IsCounterHigh(a: bv12) {
    a == 0xC80 || a == 0xC81 || a == 0xC82
  }

  function ResetValue(a: bv12): bv32 {
    if a == MISA then MISA_VALUE else if a == MSTATUS then MPP_MASK else 0
  }

  function ResetFile(): File {
    a => ResetValue(a)
  }

  /** A CSR read; the counters show the memory system's `mtime`. */
  function Read(f: File, mtime: bv64, a: bv12): bv32 {
    if IsCounter(a) then (mtime & 0xFFFF_FFFF) as bv32
    else if IsCounterHigh(a) then (mtime >> 32) as bv32
    else if a == SSTATUS then f(MSTATUS) & SSTATUS_MASK
    else if a == SIE then f(MIE) & f(MIDELEG)
    else if a == SIP then f(MIP) & f(MIDELEG)
    else f(a)
  }

  /** `new` in the bits of `mask`, `current` elsewhere. */
  function Merge(current: bv32, value: bv32, mask: bv32): bv32 {
    (current & !mask) | (value & mask)
  }

  function LegalMstatus(value: bv32): bv32 {
    var masked := value & MSTATUS_MASK;
    if masked & MPP_MASK == MPP_RESERVED then masked & !MPP_MASK else masked
  }

  /** The register a write to `a` lands in: the S-mode views alias M-mode registers. */
  function Target(a: bv12): bv12 {
    if a == SSTATUS then MSTATUS else if a == SIE then MIE else if a == SIP then MIP else a
  }

  /** The value a write of `value` to `a` leaves in `Target(a)`. */
  function Stored(f: File, a: bv12, value: bv32): bv32 {
    if a == MSTATUS then LegalMstatus(value)
    else if a == SSTATUS then Merge(f(MSTATUS), value, SSTATUS_MASK)
    else if a == SIE then Merge(f(MIE), value, f(MIDELEG))
    else if a == SIP then Merge(f(MIP), value, f(MIDELEG) & MIP_WRITABLE)
    else if a == MIP then Merge(f(MIP), value, MIP_WRITABLE)
    else value
  }

  function Set(f: File, a: bv12, value: bv32): File {
    x => if x == a then value else f(x)
  }

  function Write(f: File, a: bv12, value: bv32): File {
    if IsReadOnly(a) || a == MISA then f else Set(f, Target(a), Stored(f, a, value))
  }

  /** The register file of the CPU: 4096 words updated in place. */
  class CsrUnit {
    const csrs: array<bv32>
    /** The registers as a function of their number. */
    ghost var file: File

    ghost predicate Valid()
      reads this, csrs
    {
      csrs.Length == 4096 && forall a: bv12 :: csrs[Index(a)] == file(a)
    }

    constructor ()
      ensures Valid() && fresh(csrs) && file == ResetFile()
    {
      csrs := new bv32[4096];
      new;
      Reset();
    }

    method Reset()
      requires csrs.Length == 4096
      modifies this, csrs
      ensures Valid() && file == ResetFile()
    {
      hide Index;
      for i := 0 to 4096
        invariant forall j :: 0 <= j < i ==> csrs[j] == 0
      {
        csrs[i] := 0;
      }
      csrs[Index(MISA)] := MISA_VALUE;
      csrs[Index(MSTATUS)] := MPP_MASK;
      file := ResetFile();
      forall a: bv12
        ensures csrs[Index(a)] == file(a)
      {
        if Index(a) == Index(MISA) { IndexInjective(a, MISA); }
        if Index(a) == Index(MSTATUS) { IndexInjective(a, MSTATUS); }
      }
    }

    /** One register set, the rest kept. */
    method Put(a: bv12, value: bv32)
      requires Valid()
      modifies this, csrs
      ensures Valid() && file == Set(old(file), a, value)
    {
      hide Index;
      csrs[Index(a)] := value;
      file := Set(file, a, value);
      forall b: bv12
        ensures csrs[Index(b)] == file(b)
      {
        if Index(a) == Index(b) { IndexInjective(a, b); }
      }
    }

    function Get(a: bv12): (value: bv32)
      requires Valid()
      reads this, csrs
      ensures value == file(a)
    {
      csrs[Index(a)]
    }

    method ReadCsr(mtime: bv64, a: bv12) returns (value: bv32)
      requires Valid()
      ensures value == Read(file, mtime, a)
    {
      hide Index, Get, Valid;
      if IsCounter(a) {
        value := (mtime & 0xFFFF_FFFF) as bv32;
      } else if IsCounterHigh(a) {
        value := (mtime >> 32) as bv32;
      } else if a == SSTATUS {
        value := Get(MSTATUS) & SSTATUS_MASK;
      } else if a == SIE {
        value := Get(MIE) & Get(MIDELEG);
      } else if a == SIP {
        value := Get(MIP) & Get(MIDELEG);
      } else {
        value := Get(a);
      }
    }

    method WriteCsr(a: bv12, value: bv32)
      requires Valid()
      modifies this, csrs
      ensures Valid() && file == Write(old(file), a, value)
    {
      hide Index, Get, Valid, Set, LegalMstatus, Merge;
      if IsReadOnly(a) {
      } else if a == MSTATUS {
        Put(MSTATUS, LegalMstatus(value));
      } else if a == SSTATUS {
        Put(MSTATUS, Merge(Get(MSTATUS), value, SSTATUS_MASK));
      } else if a == SIE {
        Put(MIE, Merge(Get(MIE), value, Get(MIDELEG)));
      } else if a == SIP {
        Put(MIP, Merge(Get(MIP), value, Get(MIDELEG) & MIP_WRITABLE));
      } else if a == MIP {
        Put(MIP, Merge(Get(MIP), value, MIP_WRITABLE));
      } else if a != MISA {
        Put(a, value);
      }
    }

    method SetMip(value: bv32)
      requires Valid()
      modifies this, csrs
      ensures Valid() && file == Set(old(file), MIP, value)
    {
      Put(MIP, value);
    }
  }
}
