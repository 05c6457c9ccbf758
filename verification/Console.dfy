/** The console as software sees it: a character handed over once, the interrupt that announces it, and
    the registers that read back. */
module Console {
  import opened Arithmetic
  import opened Machine
  import opened Mmio
  import opened Timers
  import Csr
  import SdCard

  /** The registers at offset 0 and 1 are data and interrupt enable, not the divisor. */
  predicate DataMode(lineControl: bv8) {
    lineControl & 0x80 == 0
  }

  predicate ReceiveEnabled(enable: bv8) {
    enable & 1 == 1
  }

  predicate TransmitEnabled(enable: bv8) {
    enable & 2 == 2
  }

  predicate SetsTransmit(value: bv32) {
    value & 2 == 2
  }

  lemma Offsets()
    ensures IsUart(0x1000_0000) && IsUart(0x1000_0001) && IsUart(0x1000_0002) && IsUart(0x1000_0005)
    ensures !IsUart(0x0C20_1004)
    ensures UartOffset(0x1000_0000) == 0 && UartOffset(0x1000_0001) == 1 && UartOffset(0x1000_0002) == 2
        && UartOffset(0x1000_0005) == 5
  {
  }

  lemma EnableBits(enable: bv8)
    ensures enable & 0x01 != 0 <==> ReceiveEnabled(enable)
    ensures enable & 0x02 != 0 <==> TransmitEnabled(enable)
  {
  }

  lemma EnableWritten(value: bv32)
    ensures TransmitEnabled(LowByte(value)) <==> SetsTransmit(value)
    ensures value & 0x02 != 0 <==> SetsTransmit(value)
  {
  }

  /** The claim register answers 12, the console's source, exactly while the line is up. */
  lemma ClaimAnswers(d: Device)
    ensures Read(d, 0x0C20_1004) == Some((if ConsoleLine(d) then 12 else 0, d))
  {
    Offsets();
    hide IsUart, UartIrqPending, ConsoleLine;
    ConsoleIs(d);
  }

  /** A character that arrives while none waits is announced, stays whatever else is typed, and is read
      once; then the console is as before it came. */
  lemma CharacterArrives(d: Device, c: bv32, other: bv32)
    requires DataMode(d.uartRegs[3]) && d.uartIn == 0xFFFF_FFFF && c != 0xFFFF_FFFF
    ensures Read(d, 0x1000_0005) == Some((0x60, d)) && Read(d, 0x1000_0000) == Some((0, d))
    ensures var p := Mmio.Poll(d, c);
      && Mmio.Poll(p, other) == p
      && Read(p, 0x1000_0005) == Some((0x61, p))
      && Read(p, 0x1000_0000) == Some((c, d))
      && (ReceiveEnabled(d.uartRegs[1]) ==> ConsoleLine(p) && Read(p, 0x1000_0002) == Some((0xC4, p)))
      && (!ReceiveEnabled(d.uartRegs[1]) ==> (ConsoleLine(p) <==> ConsoleLine(d)))
  {
    Offsets();
    hide IsUart, UartOffset, DataMode, ConsoleLine, UartIrqPending, ReceiveEnabled;
    DataAnswers(d);
    DataAnswers(Mmio.Poll(d, c));
    LineIs(d);
    LineIs(Mmio.Poll(d, c));
    EnableBits(d.uartRegs[1]);
  }

  lemma DataAnswers(d: Device)
    requires DataMode(d.uartRegs[3])
    ensures UartRead(d, 0) == (if d.uartIn == 0xFFFF_FFFF then 0 else d.uartIn, d.(uartIn := 0xFFFF_FFFF))
  {
  }

  lemma LineIs(d: Device)
    ensures ConsoleLine(d) <==>
              (d.uartIn != 0xFFFF_FFFF && ReceiveEnabled(d.uartRegs[1])) || (d.uartTxIrq && TransmitEnabled(d.uartRegs[1]))
  {
  }

  /** A character sent raises the line when transmit interrupts are enabled, and so does enabling them;
      reading their cause with no character waiting lowers it. */
  lemma CharacterSent(d: Device, value: bv32)
    requires DataMode(d.uartRegs[3])
    ensures Write(d, 0x1000_0000, value) == Some(d.(uartTxIrq := true))
    ensures TransmitEnabled(d.uartRegs[1]) ==> ConsoleLine(d.(uartTxIrq := true))
    ensures var w := Write(d, 0x1000_0001, value);
      && w.Some? && w.value == d.(uartRegs := w.value.uartRegs, uartTxIrq := w.value.uartTxIrq)
      && w.value.uartRegs == d.uartRegs[1 := LowByte(value)]
      && (SetsTransmit(value) ==> ConsoleLine(w.value))
    ensures d.uartTxIrq && TransmitEnabled(d.uartRegs[1]) && d.uartIn == 0xFFFF_FFFF ==>
      var quiet := d.(uartTxIrq := false);
      Read(d, 0x1000_0002) == Some((0xC2, quiet)) && !ConsoleLine(quiet)
  {
    Offsets();
    EnableWritten(value);
    EnableBits(d.uartRegs[1]);
    hide IsUart, UartOffset, LowByte, SetsTransmit, UartIrqPending, TransmitEnabled, ReceiveEnabled, ConsoleLine;
    LineIs(d.(uartTxIrq := false));
    LineIs(d.(uartTxIrq := true));
    LineIs(d.(uartRegs := d.uartRegs[1 := LowByte(value)], uartTxIrq := true));
  }

  /** The SD port: a load reads the card's reply and changes nothing; a store hands it the low byte. */
  lemma SdPort(d: Device, value: bv32)
    ensures Read(d, 0x1000_1000) == Some((d.spi.reply as bv32, d))
    ensures Write(d, 0x1000_1000, value) == Some(d.(spi := SdCard.Write(d.spi, (value & 0xFF) as bv8)))
  {
    hide SdCard.Write;
  }

  /** A key typed before a turn, with the receive interrupt enabled: once the turn's instruction, which
      did not touch the console, has settled, both external interrupts are pending. */
  lemma KeyPends(s: State, c: bv32, t: State, n: bv5)
    requires c != 0xFFFF_FFFF && ReceiveEnabled(s.mem.dev.uartRegs[1])
    requires var d := Machine.Poll(s, Some(c)).mem.dev; t.mem.dev.uartIn == d.uartIn && t.mem.dev.uartRegs == d.uartRegs
    requires n == 9 || n == 11
    ensures Has(Settle(t).csr(Csr.MIP), n)
  {
    hide Has, ReceiveEnabled, TransmitEnabled, ConsoleLine, Settle, Reached, Time, Halves;
    LineIs(t.mem.dev);
    SettleMeans(t, n);
  }
}
