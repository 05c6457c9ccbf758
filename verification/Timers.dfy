/** Time, the two timers and the console line, as a turn leaves them in mip. */
module Timers {
  import opened Arithmetic
  import opened CsrLaws
  import opened Machine
  import opened Words
  import AluLaws
  import Csr
  import Mmio
  import MulDivLaws
  import Numbers

  const TWO_64: nat := 0x1_0000_0000_0000_0000

  /** The number a double word stands for. */
  function Time(x: bv64): nat {
    TimeLow(x) + TWO_32 * TimeHigh(x)
  }

  /** The number of a double word given by its halves. */
  function Halves(low: bv32, high: bv32): nat {
    ToNat(low) + TWO_32 * ToNat(high)
  }

  function LowHalf(x: bv64): bv32 {
    (x & 0xFFFF_FFFF) as bv32
  }

  function HighHalf(x: bv64): bv32 {
    (x >> 32) as bv32
  }

  /** A condition in numbers: the comparator has been reached. */
  predicate Reached(time: nat, compare: nat) {
    time >= compare
  }

  /** The console asks for attention: a character waits and its interrupt is enabled, or the transmitter
      is ready and its interrupt is. */
  predicate ConsoleLine(d: Mmio.Device) {
    || (d.uartIn != 0xFFFF_FFFF && d.uartRegs[1] & 1 == 1)
    || (d.uartTxIrq && d.uartRegs[1] & 2 == 2)
  }

  // ----- double words -------------------------------------------------------------------

  function Next(x: bv64): bv64 {
    x + 1
  }

  lemma Advance(x: bv64)
    ensures LowHalf(Next(x)) == LowHalf(x) + 1
    ensures HighHalf(Next(x)) == if LowHalf(x) == 0xFFFF_FFFF then HighHalf(x) + 1 else HighHalf(x)
  {
  }

  lemma Carry(l: nat, h: nat, m: nat, k: nat)
    requires l < TWO_32 && h < TWO_32 && m == (l + 1) % TWO_32
    requires k == if l == TWO_32 - 1 then (h + 1) % TWO_32 else h
    ensures m + TWO_32 * k == (l + TWO_32 * h + 1) % TWO_64
  {
  }

  /** Time advances by one, modulo 2^64. */
  lemma AdvanceIs(x: bv64)
    ensures Time(Next(x)) == (Time(x) + 1) % TWO_64
  {
    Advance(x);
    MulDivLaws.OnesAreMinusOne();
    Numbers.OneIsOne();
    hide ToNat, ToInt, Next, LowHalf, HighHalf, TimeLow, TimeHigh;
    HalvesAreTimes(x);
    HalvesAreTimes(Next(x));
    Numbers.SumIs(LowHalf(x), 1);
    Numbers.SumIs(HighHalf(x), 1);
    Numbers.NumberDetermines(LowHalf(x), 0xFFFF_FFFF);
    ToNatBound(LowHalf(x));
    ToNatBound(HighHalf(x));
    Carry(TimeLow(x), TimeHigh(x), TimeLow(Next(x)), TimeHigh(Next(x)));
  }

  predicate Above(h: bv32, k: bv32) {
    h > k
  }

  predicate AtLeast(l: bv32, m: bv32) {
    l >= m
  }

  lemma HigherIsLater(x: bv64, y: bv64)
    requires Above(HighHalf(x), HighHalf(y))
    ensures TimerDue(x, y) && !TimerDue(y, x)
  {
  }

  lemma SameHighLater(x: bv64, y: bv64)
    requires HighHalf(x) == HighHalf(y) && AtLeast(LowHalf(x), LowHalf(y))
    ensures TimerDue(x, y)
  {
  }

  lemma SameHighEarlier(x: bv64, y: bv64)
    requires HighHalf(x) == HighHalf(y) && !AtLeast(LowHalf(x), LowHalf(y))
    ensures !TimerDue(x, y)
  {
  }

  lemma AboveIs(h: bv32, k: bv32)
    ensures Above(h, k) <==> ToNat(h) > ToNat(k)
  {
    hide ToNat;
    AluLaws.UnsignedOrder(k, h);
  }

  lemma AtLeastIs(l: bv32, m: bv32)
    ensures AtLeast(l, m) <==> ToNat(l) >= ToNat(m)
  {
    hide ToNat;
    AluLaws.UnsignedOrder(l, m);
  }

  lemma OrderIs(x: bv64, y: bv64)
    ensures TimerDue(x, y) <==> Reached(Time(x), Time(y))
  {
    hide TimerDue, Above, AtLeast, ToNat, LowHalf, HighHalf, TimeLow, TimeHigh;
    HalvesAreTimes(x);
    HalvesAreTimes(y);
    AboveIs(HighHalf(x), HighHalf(y));
    AboveIs(HighHalf(y), HighHalf(x));
    AtLeastIs(LowHalf(x), LowHalf(y));
    Numbers.NumberDetermines(HighHalf(x), HighHalf(y));
    ToNatBound(LowHalf(x));
    ToNatBound(LowHalf(y));
    if Above(HighHalf(x), HighHalf(y)) {
      HigherIsLater(x, y);
    } else if Above(HighHalf(y), HighHalf(x)) {
      HigherIsLater(y, x);
    } else if AtLeast(LowHalf(x), LowHalf(y)) {
      SameHighLater(x, y);
    } else {
      SameHighEarlier(x, y);
    }
  }

  lemma HalvesAreTimes(x: bv64)
    ensures TimeLow(x) == ToNat(LowHalf(x)) && TimeHigh(x) == ToNat(HighHalf(x))
  {
    hide ToNat;
  }

  lemma JoinHalves(low: bv32, high: bv32)
    ensures LowHalf(Join(low, high)) == low && HighHalf(Join(low, high)) == high
  {
  }

  lemma JoinIs(low: bv32, high: bv32)
    ensures Time(Join(low, high)) == Halves(low, high)
  {
    hide ToNat, Join, LowHalf, HighHalf;
    JoinHalves(low, high);
    HalvesAreTimes(Join(low, high));
  }

  // ----- mip ----------------------------------------------------------------------------

  lemma BitSet(word: bv32, mask: bv32, on: bool, n: bv5)
    ensures Has(SetBit(word, mask, on), n) <==> if Has(mask, n) then on else Has(word, n)
  {
    SetIsOr(word, mask, on);
    hide *;
    OrHas(word, mask, n);
    NotHas(mask, n);
    AndHas(word, Not(mask), n);
  }

  lemma SetIsOr(word: bv32, mask: bv32, on: bool)
    ensures SetBit(word, mask, on) == if on then Or(word, mask) else And(word, Not(mask))
  {
  }

  lemma LineMasks(n: bv5)
    ensures (Has(0x080, n) <==> n == 7) && (Has(0x020, n) <==> n == 5) && (Has(0xA00, n) <==> n == 9 || n == 11)
  {
  }

  lemma ConsoleIs(d: Mmio.Device)
    ensures Mmio.UartIrqPending(d) <==> ConsoleLine(d)
  {
  }

  /** Bit n of the mip a turn leaves. */
  predicate MipBit(before: bv32, time: nat, machineCompare: nat, supervisorCompare: nat, console: bool, n: bv5) {
    if n == 7 then Reached(time, machineCompare)
    else if n == 5 then Reached(time, supervisorCompare)
    else if n == 9 || n == 11 then console
    else Has(before, n)
  }

  lemma PendingBit(s: State, n: bv5)
    ensures var d := s.mem.dev;
      Has(PendingAfter(s), n) <==>
        MipBit(s.csr(Csr.MIP), Time(d.mtime), Time(d.mtimecmp), Halves(s.csr(0x14D), s.csr(0x15D)), ConsoleLine(d), n)
  {
    hide Has, SetBit, TimerDue, Join, Mmio.UartIrqPending, ConsoleLine, Time, Halves, Reached;
    var d := s.mem.dev;
    var stimecmp := Join(s.csr(0x14D), s.csr(0x15D));
    var m0 := SetBit(s.csr(Csr.MIP), 0x080, TimerDue(d.mtime, d.mtimecmp));
    var m1 := SetBit(m0, 0x020, TimerDue(d.mtime, stimecmp));
    LineMasks(n);
    BitSet(s.csr(Csr.MIP), 0x080, TimerDue(d.mtime, d.mtimecmp), n);
    BitSet(m0, 0x020, TimerDue(d.mtime, stimecmp), n);
    BitSet(m1, 0xA00, Mmio.UartIrqPending(d), n);
    OrderIs(d.mtime, d.mtimecmp);
    OrderIs(d.mtime, stimecmp);
    JoinIs(s.csr(0x14D), s.csr(0x15D));
    ConsoleIs(d);
  }

  function Ticked(s: State): State {
    s.(pc := s.nextPc, mem := s.mem.(dev := s.mem.dev.(mtime := Next(s.mem.dev.mtime))))
  }

  lemma TickedIs(s: State)
    ensures var u := Ticked(s);
      && u.csr == s.csr
      && u.mem.dev == s.mem.dev.(mtime := Next(s.mem.dev.mtime))
      && u == s.(pc := s.nextPc, mem := s.mem.(dev := s.mem.dev.(mtime := u.mem.dev.mtime)))
  {
    hide Next;
  }

  lemma SettleIsTick(s: State)
    ensures var (t, u) := (Settle(s), Ticked(s));
      && t == u.(csr := t.csr)
      && t.csr(Csr.MIP) == PendingAfter(u)
      && (forall a: bv12 :: a != Csr.MIP ==> t.csr(a) == s.csr(a))
  {
    hide PendingAfter;
  }

  lemma ConsoleLineFrame(d: Mmio.Device, time: bv64)
    ensures ConsoleLine(d.(mtime := time)) <==> ConsoleLine(d)
  {
  }

  /** After an instruction: the pc moves on, time advances by one modulo 2^64, the machine timer is
      pending if and only if time has reached mtimecmp, the supervisor timer if and only if it has
      reached the number in stimecmp and stimecmph, both external interrupts if and only if the console
      asks, and nothing else changes. */
  lemma SettleMeans(s: State, n: bv5)
    ensures var t := Settle(s);
      && t == s.(pc := s.nextPc, csr := t.csr, mem := s.mem.(dev := s.mem.dev.(mtime := t.mem.dev.mtime)))
      && Time(t.mem.dev.mtime) == (Time(s.mem.dev.mtime) + 1) % TWO_64
      && (forall a: bv12 :: a != Csr.MIP ==> t.csr(a) == s.csr(a))
      && (Has(t.csr(Csr.MIP), n) <==>
            MipBit(s.csr(Csr.MIP), Time(t.mem.dev.mtime), Time(s.mem.dev.mtimecmp), Halves(s.csr(0x14D), s.csr(0x15D)),
                   ConsoleLine(s.mem.dev), n))
  {
    hide *;
    var u := Ticked(s);
    SettleIsTick(s);
    TickedIs(s);
    AdvanceIs(s.mem.dev.mtime);
    PendingBit(u, n);
    ConsoleLineFrame(s.mem.dev, Next(s.mem.dev.mtime));
  }

  // ----- the timer's registers ---------------------------------------------------------------

  lemma LowWritten(x: bv64, value: bv32)
    ensures LowHalf(Mmio.WithLow(x, value)) == value && HighHalf(Mmio.WithLow(x, value)) == HighHalf(x)
    ensures LowHalf(Mmio.WithHigh(x, value)) == LowHalf(x) && HighHalf(Mmio.WithHigh(x, value)) == value
  {
  }

  /** The four timer addresses: mtime and mtimecmp read as their halves, and a store replaces the half of
      mtimecmp it names. */
  lemma TimerRegisters(d: Mmio.Device, value: bv32)
    ensures var r := Mmio.Read(d, 0x0200_BFF8); r.Some? && ToNat(r.value.0) == TimeLow(d.mtime) && r.value.1 == d
    ensures var r := Mmio.Read(d, 0x0200_BFFC); r.Some? && ToNat(r.value.0) == TimeHigh(d.mtime) && r.value.1 == d
    ensures var r := Mmio.Read(d, 0x0200_4000); r.Some? && ToNat(r.value.0) == TimeLow(d.mtimecmp) && r.value.1 == d
    ensures var r := Mmio.Read(d, 0x0200_4004); r.Some? && ToNat(r.value.0) == TimeHigh(d.mtimecmp) && r.value.1 == d
    ensures var w := Mmio.Write(d, 0x0200_4000, value);
      w.Some? && w.value == d.(mtimecmp := w.value.mtimecmp)
        && Time(w.value.mtimecmp) == ToNat(value) + TWO_32 * TimeHigh(d.mtimecmp)
    ensures var w := Mmio.Write(d, 0x0200_4004, value);
      w.Some? && w.value == d.(mtimecmp := w.value.mtimecmp)
        && Time(w.value.mtimecmp) == TimeLow(d.mtimecmp) + TWO_32 * ToNat(value)
  {
    hide ToNat, LowHalf, HighHalf, Mmio.WithLow, Mmio.WithHigh, Mmio.IsUart;
    LowWritten(d.mtimecmp, value);
    HalvesAreTimes(d.mtimecmp);
    HalvesAreTimes(Mmio.WithLow(d.mtimecmp, value));
    HalvesAreTimes(Mmio.WithHigh(d.mtimecmp, value));
  }
}
