/** The memory-mapped devices: CLINT timer, UART, PLIC claim register and SD port. */
module Mmio {
  import SdCard

  /** A console register file of eight bytes. */
  type UartRegs = r: seq<bv8> | |r| == 8 witness [0, 0, 0, 0, 0, 0, 0, 0]

  /** Device state. `uartIn` is the pending input character as the source's `int`,
      NO_INPUT when there is none. */
  datatype Device = Device(
    mtime: bv64,
    mtimecmp: bv64,
    uartIn: bv32,
    uartRegs: UartRegs,
    uartTxIrq: bool,
    spi: SdCard.Spi)

  datatype Option<+T> = None | Some(value: T)

  const NO_INPUT: bv32 := 0xFFFF_FFFF
  const UART: bv32 := 0x1000_0000
  const PLIC_CLAIM: bv32 := 0x0C20_1004
  const MTIMECMP: bv32 := 0x0200_4000
  const MTIMECMP_HIGH: bv32 := 0x0200_4004
  const MTIME: bv32 := 0x0200_BFF8
  const MTIME_HIGH: bv32 := 0x0200_BFFC
  const SD_DATA: bv32 := 0x1000_1000
  const SD_CONTROL: bv32 := 0x1000_1004

  predicate IsUart(address: bv32) {
    UART <= address < UART + 8
  }

  /** The addresses the store side of the bus claims. */
  predicate Writable(address: bv32) {
    address == MTIMECMP || address == MTIMECMP_HIGH || IsUart(address)
    || address == PLIC_CLAIM || address == SD_CONTROL || address == SD_DATA
  }

  /** The addresses the load side of the bus claims. */
  predicate Readable(address: bv32) {
    address == MTIME || address == MTIME_HIGH || Writable(address)
  }

  function Low(x: bv64): bv32 {
    (x & 0xFFFF_FFFF) as bv32
  }

  function High(x: bv64): bv32 {
    (x >> 32) as bv32
  }

  /** A double word with its low or its high half replaced. */
  function WithLow(x: bv64, value: bv32): bv64 {
    (x & 0xFFFF_FFFF_0000_0000) | value as bv64
  }

  function WithHigh(x: bv64, value: bv32): bv64 {
    (x & 0x0000_0000_FFFF_FFFF) | (value as bv64 << 32)
  }

  function LowByte(value: bv32): bv8 {
    (value & 0xFF) as bv8
  }

  predicate UartIrqPending(d: Device) {
    (d.uartIn != NO_INPUT && d.uartRegs[1] & 0x01 != 0) || (d.uartTxIrq && d.uartRegs[1] & 0x02 != 0)
  }

  function UartOffset(address: bv32): (i: nat)
    requires IsUart(address)
    ensures i < 8
  {
    ((address - UART) as bv3) as nat
  }

  function UartWrite(d: Device, offset: nat, value: bv32): Device
    requires offset < 8
  {
    var byte := LowByte(value);
    if offset == 0 then
      if d.uartRegs[3] & 0x80 == 0 then d.(uartTxIrq := true)
      else d.(uartRegs := d.uartRegs[0 := byte])
    else if offset == 1 then
      d.(uartRegs := d.uartRegs[1 := byte], uartTxIrq := d.uartTxIrq || value & 0x02 != 0)
    else
      d.(uartRegs := d.uartRegs[offset := byte])
  }

  /** `handleMMIO`: the device after a claimed store, None when the store goes to RAM. */
  function Write(d: Device, address: bv32, value: bv32): Option<Device> {
    if address == MTIMECMP then
      Some(d.(mtimecmp := WithLow(d.mtimecmp, value)))
    else if address == MTIMECMP_HIGH then
      Some(d.(mtimecmp := WithHigh(d.mtimecmp, value)))
    else if IsUart(address) then
      Some(UartWrite(d, UartOffset(address), value))
    else if address == PLIC_CLAIM then Some(d)
    else if address == SD_CONTROL then Some(d)
    else if address == SD_DATA then
      Some(d.(spi := SdCard.Write(d.spi, LowByte(value))))
    else None
  }

  function UartRead(d: Device, offset: nat): (bv32, Device)
    requires offset < 8
  {
    if offset == 0 then
      if d.uartRegs[3] & 0x80 != 0 then (d.uartRegs[0] as bv32, d)
      else (if d.uartIn != NO_INPUT then d.uartIn else 0, d.(uartIn := NO_INPUT))
    else if offset == 2 then
      if d.uartIn != NO_INPUT && d.uartRegs[1] & 0x01 != 0 then (0xC4, d)
      else if d.uartTxIrq && d.uartRegs[1] & 0x02 != 0 then (0xC2, d.(uartTxIrq := false))
      else (0xC1, d)
    else if offset == 5 then
      (if d.uartIn != NO_INPUT then 0x61 else 0x60, d)
    else if offset == 6 then (0x00, d)
    else (d.uartRegs[offset] as bv32, d)
  }

  /** `handleMMIORead`: the value of a claimed load and the device after it. */
  function Read(d: Device, address: bv32): Option<(bv32, Device)> {
    if address == MTIME then Some((Low(d.mtime), d))
    else if address == MTIME_HIGH then Some((High(d.mtime), d))
    else if address == MTIMECMP then Some((Low(d.mtimecmp), d))
    else if address == MTIMECMP_HIGH then Some((High(d.mtimecmp), d))
    else if IsUart(address) then Some(UartRead(d, UartOffset(address)))
    else if address == PLIC_CLAIM then Some((if UartIrqPending(d) then 12 else 0, d))
    else if address == SD_CONTROL then Some((0, d))
    else if address == SD_DATA then Some((d.spi.reply as bv32, d))
    else None
  }

  /** A character offered by the keyboard is kept only when none is pending. */
  function Poll(d: Device, c: bv32): Device {
    if d.uartIn == NO_INPUT then d.(uartIn := c) else d
  }

  lemma Claims(d: Device, address: bv32, value: bv32)
    ensures Write(d, address, value).Some? <==> Writable(address)
    ensures Read(d, address).Some? <==> Readable(address)
    ensures Write(d, address, value).Some? && address != SD_DATA ==> Write(d, address, value).value.spi == d.spi
    ensures Read(d, address).Some? ==> Read(d, address).value.1.spi == d.spi
    ensures Read(d, address).Some? ==> Read(d, address).value.1.mtime == d.mtime
    ensures Write(d, address, value).Some? ==> Write(d, address, value).value.mtime == d.mtime
  {
  }
}
