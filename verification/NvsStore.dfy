/** Persistence of the GPIO and UART tables (src/nvs_store.c, include/iot_agent.h, src/main.c): saved as
    counted blobs of packed records, restored into the tables as they are at boot. */
module NvsStore {
  import opened Arithmetic
  import opened Board
  import opened Wire

  const UNCONFIGURED: byte := 0xFF
  const MODE_OUTPUT: byte := 1
  const MODE_INPUT_OUTPUT: byte := 5

  /** sizeof(event_gpio_status_t) and sizeof(event_uart_status_t), packed. */
  const GPIO_RECORD := 12
  const UART_RECORD := 13

  /** The leading bytes of a record that the restore reads. */
  const GPIO_READ := 6
  const UART_READ := 11

  type u32 = x: nat | x < U32

  datatype Pin = Pin(mode: byte, pull: byte, edge: byte, owner: nat, inUse: byte, value: byte)

  datatype Uart = Uart(
    txPin: byte, rxPin: byte, baudrate: u32, dataBits: byte, parity: byte, stopBits: byte, owner: nat, inUse: byte)

  const BOOT_PIN := Pin(UNCONFIGURED, 0, 0, 0, 0, 0)
  const BOOT_UART := Uart(0xFF, 0xFF, 0, 0, 0, 0, 0, 0)

  // ---- Records and blobs -----------------------------------------------------------------------------------

  datatype GpioRecord = GpioRecord(gpio: byte, mode: byte, pull: byte, edge: byte, value: byte, inUse: byte)

  datatype UartRecord = UartRecord(
    uartId: byte, baudrate: u32, dataBits: byte, parity: byte, stopBits: byte, txGpio: byte, rxGpio: byte, inUse: byte)

  /** The owner and ADC fields are saved as zero. */
  function PackGpio(r: GpioRecord): (bytes: seq<byte>)
    ensures |bytes| == GPIO_RECORD
  {
    [r.gpio, r.mode, r.pull, r.edge, r.value, r.inUse, 0, 0, 0, 0, 0, 0]
  }

  function PackUart(r: UartRecord): (bytes: seq<byte>)
    ensures |bytes| == UART_RECORD
  {
    [r.uartId] + Le(r.baudrate, 4) + [r.dataBits, r.parity, r.stopBits, r.txGpio, r.rxGpio, r.inUse, 0, 0]
  }

  function GpioBlob(records: seq<GpioRecord>): (blob: seq<byte>)
    requires |records| < 256
    ensures |blob| == 1 + GPIO_RECORD * |records|
  {
    [|records|] + seq(GPIO_RECORD * |records|, j requires 0 <= j < GPIO_RECORD * |records| =>
                        PackGpio(records[j / GPIO_RECORD])[j % GPIO_RECORD])
  }

  function UartBlob(records: seq<UartRecord>): (blob: seq<byte>)
    requires |records| < 256
    ensures |blob| == 1 + UART_RECORD * |records|
  {
    [|records|] + seq(UART_RECORD * |records|, j requires 0 <= j < UART_RECORD * |records| =>
                        PackUart(records[j / UART_RECORD])[j % UART_RECORD])
  }

  /** The blob holds as many records as its count byte says. */
  predicate Holds(blob: seq<byte>, size: nat) { blob != [] && |blob| >= 1 + size * blob[0] }

  /** What the source reads as the blob: where the blob is shorter than its count byte says, the memory
      behind it. */
  function Memory(blob: seq<byte>, size: nat, beyond: nat -> byte): (m: seq<byte>)
    requires blob != []
    ensures Holds(m, size) && blob <= m && (Holds(blob, size) ==> m == blob)
  {
    var needed := 1 + size * blob[0];
    if |blob| >= needed then blob else blob + seq(needed - |blob|, i requires 0 <= i => beyond(i))
  }

  /** What the restore reads of its records lies inside the blob: `used` bytes of the last one. */
  predicate ReadsInside(blob: seq<byte>, size: nat, used: nat) {
    blob != [] && (blob[0] > 0 ==> |blob| >= 1 + size * (blob[0] - 1) + used)
  }

  /** The last record names a pin or UART that does not exist, so that the restore skips it. */
  predicate LastIgnored(blob: seq<byte>, size: nat, count: nat) {
    && blob != [] && blob[0] > 0
    && var at := 1 + size * (blob[0] - 1); at < |blob| && blob[at] >= count
  }

  function GpioRecordAt(blob: seq<byte>, i: nat): GpioRecord
    requires Holds(blob, GPIO_RECORD) && i < blob[0]
  {
    var at := 1 + GPIO_RECORD * i;
    GpioRecord(blob[at], blob[at + 1], blob[at + 2], blob[at + 3], blob[at + 4], blob[at + 5])
  }

  function U32At(bytes: seq<byte>): u32
    requires |bytes| == 4
  {
    FromLeRoundTrip(bytes);
    assert Pow256(4) == 0x1_0000_0000;
    FromLe(bytes)
  }

  function UartRecordAt(blob: seq<byte>, i: nat): UartRecord
    requires Holds(blob, UART_RECORD) && i < blob[0]
  {
    var at := 1 + UART_RECORD * i;
    UartRecord(blob[at], U32At(blob[at + 1..at + 5]), blob[at + 5], blob[at + 6], blob[at + 7], blob[at + 8],
               blob[at + 9], blob[at + 10])
  }

  function GpioRecords(blob: seq<byte>): seq<GpioRecord>
    requires Holds(blob, GPIO_RECORD)
  {
    seq(blob[0], i requires 0 <= i < blob[0] => GpioRecordAt(blob, i))
  }

  function UartRecords(blob: seq<byte>): seq<UartRecord>
    requires Holds(blob, UART_RECORD)
  {
    seq(blob[0], i requires 0 <= i < blob[0] => UartRecordAt(blob, i))
  }

  function GpioRecordsRead(blob: seq<byte>, beyond: nat -> byte): seq<GpioRecord>
    requires blob != []
  {
    GpioRecords(Memory(blob, GPIO_RECORD, beyond))
  }

  function UartRecordsRead(blob: seq<byte>, beyond: nat -> byte): seq<UartRecord>
    requires blob != []
  {
    UartRecords(Memory(blob, UART_RECORD, beyond))
  }

  lemma RecordByte(size: nat, i: nat, f: nat)
    requires size == GPIO_RECORD || size == UART_RECORD
    requires f < size
    ensures (size * i + f) / size == i && (size * i + f) % size == f
  {
  }

  lemma GpioByte(records: seq<GpioRecord>, i: nat, f: nat)
    requires i < |records| < 256 && f < GPIO_RECORD
    ensures GpioBlob(records)[1 + GPIO_RECORD * i + f] == PackGpio(records[i])[f]
  {
    hide PackGpio;
    RecordByte(GPIO_RECORD, i, f);
  }

  lemma UartByte(records: seq<UartRecord>, i: nat, f: nat)
    requires i < |records| < 256 && f < UART_RECORD
    ensures UartBlob(records)[1 + UART_RECORD * i + f] == PackUart(records[i])[f]
  {
    hide PackUart;
    RecordByte(UART_RECORD, i, f);
  }

  lemma GpioBlobShape(records: seq<GpioRecord>)
    requires |records| < 256
    ensures GpioBlob(records)[0] == |records| && Holds(GpioBlob(records), GPIO_RECORD)
  {
    hide PackGpio;
  }

  lemma UartBlobShape(records: seq<UartRecord>)
    requires |records| < 256
    ensures UartBlob(records)[0] == |records| && Holds(UartBlob(records), UART_RECORD)
  {
    hide PackUart;
  }

  /** Reading a blob back gives the records it was written from. */
  lemma {:induction false} GpioBlobRoundTrip(records: seq<GpioRecord>)
    requires |records| < 256
    ensures Holds(GpioBlob(records), GPIO_RECORD) && GpioRecords(GpioBlob(records)) == records
  {
    hide GpioBlob;
    GpioBlobShape(records);
    forall i | 0 <= i < |records| ensures GpioRecordAt(GpioBlob(records), i) == records[i] {
      GpioByte(records, i, 0);
      GpioByte(records, i, 1);
      GpioByte(records, i, 2);
      GpioByte(records, i, 3);
      GpioByte(records, i, 4);
      GpioByte(records, i, 5);
    }
  }

  lemma BaudRead(records: seq<UartRecord>, i: nat)
    requires i < |records| < 256
    ensures var at := 1 + UART_RECORD * i;
            |UartBlob(records)| >= at + UART_RECORD && U32At(UartBlob(records)[at + 1..at + 5]) == records[i].baudrate
  {
    hide Le, FromLe, UartBlob;
    var at := 1 + UART_RECORD * i;
    var bytes := UartBlob(records)[at + 1..at + 5];
    UartByte(records, i, 1);
    UartByte(records, i, 2);
    UartByte(records, i, 3);
    UartByte(records, i, 4);
    assert bytes == Le(records[i].baudrate, 4);
    assert Pow256(4) == 0x1_0000_0000;
    LeRoundTrip(records[i].baudrate, 4);
  }

  lemma UartBlobRoundTrip(records: seq<UartRecord>)
    requires |records| < 256
    ensures Holds(UartBlob(records), UART_RECORD) && UartRecords(UartBlob(records)) == records
  {
    hide Le, FromLe, UartBlob, U32At;
    UartBlobShape(records);
    forall i | 0 <= i < |records| ensures UartRecordAt(UartBlob(records), i) == records[i] {
      BaudRead(records, i);
      UartByte(records, i, 0);
      UartByte(records, i, 5);
      UartByte(records, i, 6);
      UartByte(records, i, 7);
      UartByte(records, i, 8);
      UartByte(records, i, 9);
      UartByte(records, i, 10);
    }
  }

  // ---- What is saved and what is restored -------------------------------------------------------------------

  predicate SavesPin(p: Pin) { p.mode != UNCONFIGURED && p.inUse != 0 }

  function RecordOf(gpio: byte, p: Pin): GpioRecord { GpioRecord(gpio, p.mode, p.pull, p.edge, p.value, p.inUse) }

  function SavedPins(pins: seq<Pin>): (records: seq<GpioRecord>)
    requires |pins| <= 256
    ensures |records| <= |pins|
  {
    if pins == [] then []
    else
      var n := |pins| - 1;
      SavedPins(pins[..n]) + if SavesPin(pins[n]) then [RecordOf(n, pins[n])] else []
  }

  function UartRecordOf(id: byte, u: Uart): UartRecord {
    UartRecord(id, u.baudrate, u.dataBits, u.parity, u.stopBits, u.txPin, u.rxPin, u.inUse)
  }

  function SavedUarts(uarts: seq<Uart>): (records: seq<UartRecord>)
    requires |uarts| <= 256
    ensures |records| <= |uarts|
  {
    if uarts == [] then []
    else
      var n := |uarts| - 1;
      SavedUarts(uarts[..n]) + if uarts[n].inUse != 0 then [UartRecordOf(n, uarts[n])] else []
  }

  predicate KeepsValue(mode: byte) { mode == MODE_OUTPUT || mode == MODE_INPUT_OUTPUT }

  /** The value of a pin is restored only if it drives the pin. */
  function PinFrom(r: GpioRecord, before: Pin): Pin {
    Pin(r.mode, r.pull, r.edge, 0, r.inUse, if KeepsValue(r.mode) then r.value else before.value)
  }

  function RestoredPins(pins: seq<Pin>, records: seq<GpioRecord>): (after: seq<Pin>)
    ensures |after| == |pins|
  {
    if records == [] then pins
    else
      var n := |records| - 1;
      var before, r := RestoredPins(pins, records[..n]), records[n];
      if r.gpio >= |pins| then before else before[r.gpio := PinFrom(r, before[r.gpio])]
  }

  /** Modes that the restore knows how to apply; only they are counted. */
  predicate KnownMode(mode: byte) { mode <= 5 }

  function PinsApplied(records: seq<GpioRecord>): nat {
    if records == [] then 0
    else
      var n := |records| - 1;
      PinsApplied(records[..n]) + if records[n].gpio < GPIO_COUNT && KnownMode(records[n].mode) then 1 else 0
  }

  function UartFrom(r: UartRecord): Uart {
    Uart(r.txGpio, r.rxGpio, r.baudrate, r.dataBits, r.parity, r.stopBits, 0, r.inUse)
  }

  function RestoredUarts(uarts: seq<Uart>, records: seq<UartRecord>): (after: seq<Uart>)
    ensures |after| == |uarts|
  {
    if records == [] then uarts
    else
      var n := |records| - 1;
      var before, r := RestoredUarts(uarts, records[..n]), records[n];
      if r.uartId >= |uarts| then before else before[r.uartId := UartFrom(r)]
  }

  function UartsApplied(records: seq<UartRecord>): nat {
    if records == [] then 0
    else UartsApplied(records[..|records| - 1]) + if records[|records| - 1].uartId < UART_COUNT then 1 else 0
  }

  function Claimed(pins: seq<Pin>, pin: byte, owner: nat): (after: seq<Pin>)
    ensures |after| == |pins|
  {
    if pin < |pins| then pins[pin := pins[pin].(owner := owner, inUse := 1)] else pins
  }

  /** Each restored UART claims its pins. */
  function ClaimedPins(pins: seq<Pin>, records: seq<UartRecord>): (after: seq<Pin>)
    ensures |after| == |pins|
  {
    if records == [] then pins
    else
      var n := |records| - 1;
      var before, r := ClaimedPins(pins, records[..n]), records[n];
      if r.uartId >= UART_COUNT then before else Claimed(Claimed(before, r.txGpio, r.uartId), r.rxGpio, r.uartId)
  }

  /** The count byte, and a copy of the records. */
  method FillGpioBlob(records: array<GpioRecord>, count: nat) returns (blob: array<byte>)
    requires count <= records.Length && count < 256
    ensures fresh(blob) && blob[..] == GpioBlob(records[..count])
  {
    hide PackGpio;
    blob := new byte[1 + GPIO_RECORD * count];
    blob[0] := count;
    forall j | 0 <= j < GPIO_RECORD * count {
      blob[1 + j] := PackGpio(records[j / GPIO_RECORD])[j % GPIO_RECORD];
    }
  }

  method FillUartBlob(records: array<UartRecord>, count: nat) returns (blob: array<byte>)
    requires count <= records.Length && count < 256
    ensures fresh(blob) && blob[..] == UartBlob(records[..count])
  {
    hide PackUart;
    blob := new byte[1 + UART_RECORD * count];
    blob[0] := count;
    forall j | 0 <= j < UART_RECORD * count {
      blob[1 + j] := PackUart(records[j / UART_RECORD])[j % UART_RECORD];
    }
  }

  // ---- The store -------------------------------------------------------------------------------------------

  class NvsStore {
    const gpioTable: array<Pin>
    const uartTable: array<Uart>
    var gpioCfg: Option<seq<byte>>
    var uartCfg: Option<seq<byte>>

    ghost predicate Valid() {
      gpioTable.Length == GPIO_COUNT && uartTable.Length == UART_COUNT
    }

    /** The tables as init_resource_tables leaves them, over what an earlier boot stored. */
    constructor (gpioCfg: Option<seq<byte>>, uartCfg: Option<seq<byte>>)
      ensures Valid() && fresh(gpioTable) && fresh(uartTable)
      ensures gpioTable[..] == seq(GPIO_COUNT, _ => BOOT_PIN) && uartTable[..] == seq(UART_COUNT, _ => BOOT_UART)
      ensures this.gpioCfg == gpioCfg && this.uartCfg == uartCfg
    {
      gpioTable := new Pin[GPIO_COUNT](_ => BOOT_PIN);
      uartTable := new Uart[UART_COUNT](_ => BOOT_UART);
      this.gpioCfg, this.uartCfg := gpioCfg, uartCfg;
    }

    /** Save the pins in use. The stored blob is replaced whole or, when memory runs out or the write
        fails, not at all. */
    method SaveGpio(recordsGranted: bool, blobGranted: bool, written: bool) returns (count: nat)
      requires Valid()
      modifies this`gpioCfg
      ensures count == if recordsGranted then |SavedPins(gpioTable[..])| else 0
      ensures gpioCfg == if recordsGranted && blobGranted && written then Some(GpioBlob(SavedPins(gpioTable[..])))
                         else old(gpioCfg)
    {
      count := 0;
      if !recordsGranted {
        return;
      }
      ghost var pins := gpioTable[..];
      var records := new GpioRecord[GPIO_COUNT];
      for i := 0 to GPIO_COUNT
        invariant count <= i && records[..count] == SavedPins(pins[..i])
        invariant gpioCfg == old(gpioCfg)
      {
        assert pins[..i + 1][..i] == pins[..i];
        if gpioTable[i].mode != UNCONFIGURED && gpioTable[i].inUse != 0 {
          records[count] := GpioRecord(i, gpioTable[i].mode, gpioTable[i].pull, gpioTable[i].edge, gpioTable[i].value,
                                       gpioTable[i].inUse);
          count := count + 1;
        }
      }
      assert pins[..GPIO_COUNT] == pins == gpioTable[..];
      if blobGranted {
        hide SavedPins, GpioBlob;
        var blob := FillGpioBlob(records, count);
        if written {
          gpioCfg := Some(blob[..]);
        }
        assert gpioTable[..] == pins;
      }
    }

    method SaveUart(recordsGranted: bool, blobGranted: bool, written: bool) returns (count: nat)
      requires Valid()
      modifies this`uartCfg
      ensures count == if recordsGranted then |SavedUarts(uartTable[..])| else 0
      ensures uartCfg == if recordsGranted && blobGranted && written then Some(UartBlob(SavedUarts(uartTable[..])))
                         else old(uartCfg)
    {
      hide Le;
      count := 0;
      if !recordsGranted {
        return;
      }
      ghost var uarts := uartTable[..];
      var records := new UartRecord[UART_COUNT];
      for i := 0 to UART_COUNT
        invariant count <= i && records[..count] == SavedUarts(uarts[..i])
        invariant uartCfg == old(uartCfg)
      {
        assert uarts[..i + 1][..i] == uarts[..i];
        var u := uartTable[i];
        if u.inUse != 0 {
          records[count] := UartRecord(i, u.baudrate, u.dataBits, u.parity, u.stopBits, u.txPin, u.rxPin, u.inUse);
          count := count + 1;
        }
      }
      assert uarts[..UART_COUNT] == uarts == uartTable[..];
      if blobGranted {
        hide SavedUarts, UartBlob;
        var blob := FillUartBlob(records, count);
        if written {
          uartCfg := Some(blob[..]);
        }
        assert uartTable[..] == uarts;
      }
    }

    /** Restore the pins from the stored blob. The source trusts the blob to hold the records it counts and
        otherwise reads on `beyond` it. */
    method RestoreGpio(readable: bool, granted: bool, beyond: nat -> byte) returns (restored: nat)
      requires Valid()
      modifies gpioTable
      ensures var found := gpioCfg.Some? && gpioCfg.value != [] && readable && granted;
        && restored == (if found then PinsApplied(GpioRecordsRead(gpioCfg.value, beyond)) else 0)
        && gpioTable[..] == if found then RestoredPins(old(gpioTable[..]), GpioRecordsRead(gpioCfg.value, beyond))
                            else old(gpioTable[..])
    {
      restored := 0;
      if gpioCfg.None? || gpioCfg.value == [] || !granted || !readable {
        return;
      }
      var blob := Memory(gpioCfg.value, GPIO_RECORD, beyond);
      var count := blob[0];
      ghost var before, records := gpioTable[..], GpioRecordsRead(gpioCfg.value, beyond);
      for i := 0 to count
        invariant gpioTable[..] == RestoredPins(before, records[..i])
        invariant restored == PinsApplied(records[..i])
      {
        assert records[..i + 1][..i] == records[..i];
        var r := GpioRecordAt(blob, i);
        assert records[i] == r;
        if r.gpio < GPIO_COUNT {
          gpioTable[r.gpio] := Pin(r.mode, r.pull, r.edge, 0, r.inUse, gpioTable[r.gpio].value);
          if r.mode <= 5 {
            if r.mode == MODE_OUTPUT || r.mode == MODE_INPUT_OUTPUT {
              gpioTable[r.gpio] := gpioTable[r.gpio].(value := r.value);
            }
            restored := restored + 1;
          }
        }
      }
      assert records[..count] == records;
    }

    method RestoreUart(readable: bool, granted: bool, beyond: nat -> byte) returns (restored: nat)
      requires Valid()
      modifies gpioTable, uartTable
      ensures var found := uartCfg.Some? && uartCfg.value != [] && readable && granted;
        && restored == (if found then UartsApplied(UartRecordsRead(uartCfg.value, beyond)) else 0)
        && (!found ==> gpioTable[..] == old(gpioTable[..]) && uartTable[..] == old(uartTable[..]))
        && (found ==>
             && uartTable[..] == RestoredUarts(old(uartTable[..]), UartRecordsRead(uartCfg.value, beyond))
             && gpioTable[..] == ClaimedPins(old(gpioTable[..]), UartRecordsRead(uartCfg.value, beyond)))
    {
      hide FromLe;
      restored := 0;
      if uartCfg.None? || uartCfg.value == [] || !granted || !readable {
        return;
      }
      var blob := Memory(uartCfg.value, UART_RECORD, beyond);
      var count := blob[0];
      ghost var pins, uarts, records := gpioTable[..], uartTable[..], UartRecordsRead(uartCfg.value, beyond);
      for i := 0 to count
        invariant uartTable[..] == RestoredUarts(uarts, records[..i])
        invariant gpioTable[..] == ClaimedPins(pins, records[..i])
        invariant restored == UartsApplied(records[..i])
      {
        assert records[..i + 1][..i] == records[..i];
        var r := UartRecordAt(blob, i);
        assert records[i] == r;
        if r.uartId < UART_COUNT {
          uartTable[r.uartId] := Uart(r.txGpio, r.rxGpio, r.baudrate, r.dataBits, r.parity, r.stopBits, 0, r.inUse);
          if r.txGpio < 31 {
            gpioTable[r.txGpio] := gpioTable[r.txGpio].(owner := r.uartId, inUse := 1);
          }
          if r.rxGpio < 31 {
            gpioTable[r.rxGpio] := gpioTable[r.rxGpio].(owner := r.uartId, inUse := 1);
          }
          restored := restored + 1;
        }
      }
      assert records[..count] == records;
    }

    /** The restore at boot: the pins first, then the UARTs. */
    method RestoreAll(openOk: bool, gpioReadable: bool, gpioGranted: bool, uartReadable: bool, uartGranted: bool,
                      beyond: nat -> byte)
      requires Valid()
      modifies gpioTable, uartTable
      ensures var pins := if openOk && gpioReadable && gpioGranted && gpioCfg.Some? && gpioCfg.value != []
                          then RestoredPins(old(gpioTable[..]), GpioRecordsRead(gpioCfg.value, beyond))
                          else old(gpioTable[..]);
              var found := openOk && uartReadable && uartGranted && uartCfg.Some? && uartCfg.value != [];
        && gpioTable[..] == (if found then ClaimedPins(pins, UartRecordsRead(uartCfg.value, beyond)) else pins)
        && uartTable[..] == (if found then RestoredUarts(old(uartTable[..]), UartRecordsRead(uartCfg.value, beyond))
                             else old(uartTable[..]))
    {
      hide GpioRecordsRead, UartRecordsRead, RestoredPins, RestoredUarts, ClaimedPins;
      if !openOk {
        return;
      }
      var gpios := RestoreGpio(gpioReadable, gpioGranted, beyond);
      assert uartTable[..] == old(uartTable[..]);
      var uarts := RestoreUart(uartReadable, uartGranted, beyond);
    }
  }

  // ---- The round trip --------------------------------------------------------------------------------------

  /** What of a pin comes back. */
  function Kept(p: Pin): Pin {
    if SavesPin(p) then Pin(p.mode, p.pull, p.edge, 0, p.inUse, if KeepsValue(p.mode) then p.value else 0)
    else BOOT_PIN
  }

  function KeptUart(u: Uart): Uart { if u.inUse != 0 then u.(owner := 0) else BOOT_UART }

  predicate Uses(u: Uart, pin: nat) { u.inUse != 0 && (u.txPin == pin || u.rxPin == pin) }

  /** The last UART in use that has a pin, if any. */
  function UserOf(uarts: seq<Uart>, pin: nat): Option<nat> {
    if uarts == [] then None
    else if Uses(uarts[|uarts| - 1], pin) then Some(|uarts| - 1)
    else UserOf(uarts[..|uarts| - 1], pin)
  }

  /** A pin after the UARTs have claimed theirs. */
  function Owned(p: Pin, user: Option<nat>): Pin {
    if user.Some? then p.(owner := user.value, inUse := 1) else p
  }

  function BootPins(): seq<Pin> { seq(GPIO_COUNT, _ => BOOT_PIN) }

  function BootUarts(): seq<Uart> { seq(UART_COUNT, _ => BOOT_UART) }

  lemma SavedPinsSnoc(pins: seq<Pin>, n: nat)
    requires n < |pins| <= 256
    ensures SavedPins(pins[..n + 1]) ==
            if SavesPin(pins[n]) then SavedPins(pins[..n]) + [RecordOf(n, pins[n])] else SavedPins(pins[..n])
  {
    assert pins[..n + 1][..n] == pins[..n];
  }

  lemma RestoredPinsSnoc(pins: seq<Pin>, records: seq<GpioRecord>, r: GpioRecord)
    requires r.gpio < |pins|
    ensures var before := RestoredPins(pins, records);
            RestoredPins(pins, records + [r]) == before[r.gpio := PinFrom(r, before[r.gpio])]
  {
    assert (records + [r])[..|records|] == records;
  }

  lemma PinRecorded(id: byte, p: Pin)
    ensures RecordOf(id, p).gpio == id && (SavesPin(p) ==> PinFrom(RecordOf(id, p), BOOT_PIN) == Kept(p))
    ensures !SavesPin(p) ==> Kept(p) == BOOT_PIN
  {
  }

  /** The first `n` pins have come back. */
  ghost predicate CameBack(after: seq<Pin>, pins: seq<Pin>, n: nat)
    requires |pins| == GPIO_COUNT
  {
    |after| == GPIO_COUNT && forall i :: 0 <= i < GPIO_COUNT ==> after[i] == if i < n then Kept(pins[i]) else BOOT_PIN
  }

  lemma OneMoreBack(before: seq<Pin>, pins: seq<Pin>, n: nat)
    requires |pins| == GPIO_COUNT && n < GPIO_COUNT && CameBack(before, pins, n)
    ensures before[n] == BOOT_PIN && CameBack(before[n := Kept(pins[n])], pins, n + 1)
    ensures !SavesPin(pins[n]) ==> CameBack(before, pins, n + 1)
  {
    PinRecorded(n, pins[n]);
    hide Kept, SavesPin;
    assert before[n] == BOOT_PIN;
  }

  lemma {:induction false} PinsComeBack(boot: seq<Pin>, pins: seq<Pin>, n: nat)
    requires |boot| == |pins| == GPIO_COUNT && n <= GPIO_COUNT
    requires forall i :: 0 <= i < GPIO_COUNT ==> boot[i] == BOOT_PIN
    ensures CameBack(RestoredPins(boot, SavedPins(pins[..n])), pins, n)
  {
    if n == 0 {
      assert pins[..0] == [];
    } else {
      PinsComeBack(boot, pins, n - 1);
      OneMorePin(boot, pins, n - 1);
      assert n - 1 + 1 == n;
    }
  }

  lemma OneMorePin(boot: seq<Pin>, pins: seq<Pin>, n: nat)
    requires |boot| == |pins| == GPIO_COUNT && n < GPIO_COUNT
    requires CameBack(RestoredPins(boot, SavedPins(pins[..n])), pins, n)
    ensures CameBack(RestoredPins(boot, SavedPins(pins[..n + 1])), pins, n + 1)
  {
    hide RestoredPins, SavedPins, RecordOf, PinFrom, Kept, SavesPin, CameBack;
    OneMoreBack(RestoredPins(boot, SavedPins(pins[..n])), pins, n);
    SavedPinsSnoc(pins, n);
    PinRecorded(n, pins[n]);
    RestoredPinsSnoc(boot, SavedPins(pins[..n]), RecordOf(n, pins[n]));
  }

  lemma SavedUartsSnoc(uarts: seq<Uart>, n: nat)
    requires n < |uarts| <= 256
    ensures SavedUarts(uarts[..n + 1]) ==
            if uarts[n].inUse != 0 then SavedUarts(uarts[..n]) + [UartRecordOf(n, uarts[n])] else SavedUarts(uarts[..n])
  {
    assert uarts[..n + 1][..n] == uarts[..n];
  }

  lemma RestoredUartsSnoc(uarts: seq<Uart>, pins: seq<Pin>, records: seq<UartRecord>, r: UartRecord)
    requires r.uartId < |uarts| <= UART_COUNT
    ensures RestoredUarts(uarts, records + [r]) == RestoredUarts(uarts, records)[r.uartId := UartFrom(r)]
    ensures ClaimedPins(pins, records + [r]) ==
            Claimed(Claimed(ClaimedPins(pins, records), r.txGpio, r.uartId), r.rxGpio, r.uartId)
  {
    assert (records + [r])[..|records|] == records;
  }

  lemma UartRecorded(id: byte, u: Uart)
    ensures UartFrom(UartRecordOf(id, u)) == u.(owner := 0)
    ensures var r := UartRecordOf(id, u); r.uartId == id && r.txGpio == u.txPin && r.rxGpio == u.rxPin
  {
  }

  lemma {:induction false} UartsComeBack(boot: seq<Uart>, uarts: seq<Uart>, n: nat)
    requires |boot| == |uarts| == UART_COUNT && n <= UART_COUNT
    requires forall i :: 0 <= i < UART_COUNT ==> boot[i] == BOOT_UART
    ensures var after := RestoredUarts(boot, SavedUarts(uarts[..n]));
            forall i :: 0 <= i < UART_COUNT ==> after[i] == if i < n then KeptUart(uarts[i]) else BOOT_UART
  {
    if n > 0 {
      hide RestoredUarts, SavedUarts, ClaimedPins, UartRecordOf, UartFrom;
      UartsComeBack(boot, uarts, n - 1);
      SavedUartsSnoc(uarts, n - 1);
      UartRecorded(n - 1, uarts[n - 1]);
      RestoredUartsSnoc(boot, [], SavedUarts(uarts[..n - 1]), UartRecordOf(n - 1, uarts[n - 1]));
    }
  }

  lemma ClaimedTwice(pins: seq<Pin>, tx: byte, rx: byte, owner: nat, i: nat)
    requires i < |pins|
    ensures Claimed(Claimed(pins, tx, owner), rx, owner)[i] ==
            if i == tx || i == rx then pins[i].(owner := owner, inUse := 1) else pins[i]
  {
  }

  lemma UserOfSnoc(uarts: seq<Uart>, n: nat, pin: nat)
    requires n < |uarts|
    ensures UserOf(uarts[..n + 1], pin) == if Uses(uarts[n], pin) then Some(n) else UserOf(uarts[..n], pin)
  {
    assert uarts[..n + 1][..n] == uarts[..n];
  }

  lemma {:induction false} PinsAreClaimed(pins: seq<Pin>, uarts: seq<Uart>, n: nat)
    requires |pins| == GPIO_COUNT && |uarts| == UART_COUNT && n <= UART_COUNT
    ensures var after := ClaimedPins(pins, SavedUarts(uarts[..n]));
            forall i :: 0 <= i < GPIO_COUNT ==> after[i] == Owned(pins[i], UserOf(uarts[..n], i))
  {
    if n > 0 {
      hide RestoredUarts, SavedUarts, ClaimedPins, Claimed, UserOf, UartRecordOf, UartFrom;
      PinsAreClaimed(pins, uarts, n - 1);
      var before, u := ClaimedPins(pins, SavedUarts(uarts[..n - 1])), uarts[n - 1];
      SavedUartsSnoc(uarts, n - 1);
      UartRecorded(n - 1, u);
      RestoredUartsSnoc(uarts, pins, SavedUarts(uarts[..n - 1]), UartRecordOf(n - 1, u));
      forall i | 0 <= i < GPIO_COUNT
        ensures ClaimedPins(pins, SavedUarts(uarts[..n]))[i] == Owned(pins[i], UserOf(uarts[..n], i))
      {
        ClaimedTwice(before, u.txPin, u.rxPin, n - 1, i);
        UserOfSnoc(uarts, n - 1, i);
      }
    }
  }

  datatype Tables = Tables(pins: seq<Pin>, uarts: seq<Uart>)

  ghost predicate Shaped(t: Tables) { |t.pins| == GPIO_COUNT && |t.uarts| == UART_COUNT }

  /** Saving the tables, booting and restoring them: pins first, then UARTs. */
  function Reboot(t: Tables): (r: Tables)
    requires Shaped(t)
    ensures Shaped(r)
  {
    GpioBlobRoundTrip(SavedPins(t.pins));
    UartBlobRoundTrip(SavedUarts(t.uarts));
    var gpioRecords := GpioRecords(GpioBlob(SavedPins(t.pins)));
    var uartRecords := UartRecords(UartBlob(SavedUarts(t.uarts)));
    Tables(ClaimedPins(RestoredPins(BootPins(), gpioRecords), uartRecords), RestoredUarts(BootUarts(), uartRecords))
  }

  /** The same on the store: what the tables hold is saved, with memory for it and a flash that takes it, and
      restored after boot. */
  method SaveAndReboot(store: NvsStore, beyond: nat -> byte) returns (booted: NvsStore)
    requires store.Valid()
    modifies store`gpioCfg, store`uartCfg
    ensures booted.Valid() && fresh(booted)
    ensures var before := Tables(old(store.gpioTable[..]), old(store.uartTable[..]));
            Tables(booted.gpioTable[..], booted.uartTable[..]) == Reboot(before)
  {
    var pins := store.SaveGpio(true, true, true);
    var uarts := store.SaveUart(true, true, true);
    ghost var before := Tables(store.gpioTable[..], store.uartTable[..]);
    BlobsFit(before, beyond);
    GpioBlobRoundTrip(SavedPins(before.pins));
    UartBlobRoundTrip(SavedUarts(before.uarts));
    booted := new NvsStore(store.gpioCfg, store.uartCfg);
    hide SavedPins, SavedUarts, GpioBlob, UartBlob, GpioRecords, UartRecords, GpioRecordsRead, UartRecordsRead;
    hide RestoredPins, RestoredUarts, ClaimedPins;
    booted.RestoreAll(true, true, true, true, true, beyond);
  }

  /** The round trip. Every in-use configured pin comes back with its mode, pull, edge and in-use mark, and
      with its value if it drives the pin; every in-use UART with all its settings; everything else is as at
      boot, apart from the ownership that the restored UARTs assign to their pins. */
  lemma {:induction false} WhatComesBack(t: Tables)
    requires Shaped(t)
    ensures forall i :: 0 <= i < GPIO_COUNT ==> Reboot(t).pins[i] == Owned(Kept(t.pins[i]), UserOf(t.uarts, i))
    ensures forall u :: 0 <= u < UART_COUNT ==> Reboot(t).uarts[u] == KeptUart(t.uarts[u])
  {
    hide GpioBlob, UartBlob, GpioRecords, UartRecords, RestoredPins, RestoredUarts, ClaimedPins, SavedPins, SavedUarts;
    hide Kept, KeptUart, Owned;
    GpioBlobRoundTrip(SavedPins(t.pins));
    UartBlobRoundTrip(SavedUarts(t.uarts));
    assert t.pins[..GPIO_COUNT] == t.pins && t.uarts[..UART_COUNT] == t.uarts;
    PinsComeBack(BootPins(), t.pins, GPIO_COUNT);
    UartsComeBack(BootUarts(), t.uarts, UART_COUNT);
    PinsAreClaimed(RestoredPins(BootPins(), SavedPins(t.pins)), t.uarts, UART_COUNT);
  }

  /** Record `k` is the last for pin `i`, or the last for it with a mode that drives the pin. */
  ghost predicate LastRecord(records: seq<GpioRecord>, k: nat, i: nat) {
    k < |records| && records[k].gpio == i && forall l :: k < l < |records| ==> records[l].gpio != i
  }

  ghost predicate LastDriven(records: seq<GpioRecord>, k: nat, i: nat) {
    && k < |records| && records[k].gpio == i && (records[k].mode == 1 || records[k].mode == 5)
    && forall l :: k < l < |records| && records[l].gpio == i ==> records[l].mode != 1 && records[l].mode != 5
  }

  /** What any sequence of records makes of a pin: the last record for it sets everything but the value, */
  lemma {:induction false} PinRestored(pins: seq<Pin>, records: seq<GpioRecord>, i: nat)
    requires i < |pins|
    ensures var after := RestoredPins(pins, records)[i];
      && (forall k: nat :: LastRecord(records, k, i) ==>
            var r := records[k];
            && after.mode == r.mode && after.pull == r.pull && after.edge == r.edge && after.inUse == r.inUse
            && after.owner == 0)
      && ((forall k: nat :: !LastRecord(records, k, i)) ==> after == pins[i])
  {
    if records != [] {
      var n := |records| - 1;
      PinRestored(pins, records[..n], i);
      LastRecordSnoc(records, i);
      assert LastRecord(records, n, i) <==> records[n].gpio == i;
      assert records[n].gpio != i ==> forall k: nat :: LastRecord(records, k, i) == LastRecord(records[..n], k, i);
      hide LastRecord;
    }
  }

  /** which the last one with a driving mode sets. */
  lemma {:induction false} ValueRestored(pins: seq<Pin>, records: seq<GpioRecord>, i: nat)
    requires i < |pins|
    ensures var after := RestoredPins(pins, records)[i];
      && (forall k: nat :: LastDriven(records, k, i) ==> after.value == records[k].value)
      && ((forall k: nat :: !LastDriven(records, k, i)) ==> after.value == pins[i].value)
  {
    if records != [] {
      var n := |records| - 1;
      ValueRestored(pins, records[..n], i);
      LastRecordSnoc(records, i);
      var drives := records[n].gpio == i && (records[n].mode == 1 || records[n].mode == 5);
      assert LastDriven(records, n, i) <==> drives;
      assert !drives ==> forall k: nat :: LastDriven(records, k, i) == LastDriven(records[..n], k, i);
      hide LastDriven;
    }
  }

  lemma LastRecordSnoc(records: seq<GpioRecord>, i: nat)
    requires records != []
    ensures var n := |records| - 1;
            var drives := records[n].mode == 1 || records[n].mode == 5;
      && (forall k: nat :: LastRecord(records, k, i) <==>
            if records[n].gpio == i then k == n else LastRecord(records[..n], k, i))
      && (forall k: nat :: LastDriven(records, k, i) <==>
            if records[n].gpio == i && drives then k == n else LastDriven(records[..n], k, i))
      && (forall k: nat :: LastRecord(records[..n], k, i) || LastDriven(records[..n], k, i) ==> k < n)
  {
  }

  /** UART `u` is in use and has pin `i`, and no later one does. */
  ghost predicate LastUser(uarts: seq<Uart>, u: nat, i: nat) {
    && u < |uarts| && uarts[u].inUse != 0 && (uarts[u].txPin == i || uarts[u].rxPin == i)
    && forall v :: u < v < |uarts| && uarts[v].inUse != 0 ==> uarts[v].txPin != i && uarts[v].rxPin != i
  }

  lemma {:induction false} UserIsLast(uarts: seq<Uart>, i: nat)
    ensures match UserOf(uarts, i)
            case None => forall u: nat :: !LastUser(uarts, u, i)
            case Some(u) => LastUser(uarts, u, i) && forall v: nat :: LastUser(uarts, v, i) ==> v == u
  {
    if uarts != [] {
      var n := |uarts| - 1;
      UserIsLast(uarts[..n], i);
      if Uses(uarts[n], i) {
        assert LastUser(uarts, n, i);
      } else {
        forall u: nat ensures LastUser(uarts, u, i) <==> LastUser(uarts[..n], u, i) {
        }
      }
    }
  }

  /** What a reboot brings back, spelled out. A pin in use whose mode is not 0xFF has its mode, pull and edge
      again, its value if it is driven (modes 1 and 5) and 0 otherwise, and its in-use mark; every other pin is
      as at boot. On top of that each pin belongs to the last UART in use that has it, and is in use then. */
  lemma {:induction false} PinAfterReboot(t: Tables, i: nat)
    requires Shaped(t) && i < 31
    ensures var p, r := t.pins[i], Reboot(t).pins[i];
            var kept := p.mode != 0xFF && p.inUse != 0;
      && r.mode == (if kept then p.mode else 0xFF)
      && r.pull == (if kept then p.pull else 0)
      && r.edge == (if kept then p.edge else 0)
      && r.value == (if kept && (p.mode == 1 || p.mode == 5) then p.value else 0)
      && (forall u: nat :: LastUser(t.uarts, u, i) ==> r.inUse == 1 && r.owner == u)
      && ((forall u: nat :: !LastUser(t.uarts, u, i)) ==> r.inUse == (if kept then p.inUse else 0) && r.owner == 0)
  {
    WhatComesBack(t);
    UserIsLast(t.uarts, i);
    hide Reboot, UserOf, LastUser;
  }

  /** A UART in use has all its settings again, with no owner; any other is as at boot. */
  lemma {:induction false} UartAfterReboot(t: Tables, u: nat)
    requires Shaped(t) && u < 2
    ensures var p := t.uarts[u];
            Reboot(t).uarts[u] ==
              if p.inUse != 0
              then Uart(p.txPin, p.rxPin, p.baudrate, p.dataBits, p.parity, p.stopBits, 0, p.inUse)
              else Uart(0xFF, 0xFF, 0, 0, 0, 0, 0, 0)
  {
    WhatComesBack(t);
    hide Reboot;
  }

  lemma {:induction false} SameUsers(a: seq<Uart>, b: seq<Uart>, pin: nat)
    requires |a| == |b| && forall u :: 0 <= u < |a| ==> b[u] == KeptUart(a[u])
    ensures UserOf(a, pin) == UserOf(b, pin)
  {
    if a != [] {
      SameUsers(a[..|a| - 1], b[..|b| - 1], pin);
    }
  }

  /** A second save and restore changes nothing. */
  lemma {:induction false} SecondRebootChangesNothing(t: Tables)
    requires Shaped(t)
    ensures Reboot(Reboot(t)) == Reboot(t)
  {
    hide Reboot;
    var once := Reboot(t);
    var twice := Reboot(once);
    WhatComesBack(t);
    WhatComesBack(once);
    forall i | 0 <= i < GPIO_COUNT ensures twice.pins[i] == once.pins[i] {
      SameUsers(t.uarts, once.uarts, i);
    }
    assert twice.pins == once.pins && twice.uarts == once.uarts;
  }

  // ---- Blobs that are too short ----------------------------------------------------------------------------

  /** What is read of record `i` lies inside the blob. */
  lemma {:induction false} InsideBlob(blob: seq<byte>, size: nat, used: nat, i: nat)
    requires blob != [] && i < blob[0] && used <= size
    requires ReadsInside(blob, size, used) || (i < blob[0] - 1 && |blob| > 1 + size * (blob[0] - 1))
    ensures 1 + size * i + used <= |blob|
  {
    MulMonotone(i, blob[0] - 1, size);
    if i < blob[0] - 1 {
      MulMonotone(i + 1, blob[0] - 1, size);
      MulStep(size, i + 1);
    }
  }

  lemma MulStep(size: nat, n: nat)
    requires n > 0
    ensures size * n == size * (n - 1) + size
  {
  }

  lemma GpioInside(blob: seq<byte>, a: nat -> byte, b: nat -> byte, i: nat)
    requires blob != [] && i < blob[0] && 1 + GPIO_RECORD * i + GPIO_READ <= |blob|
    ensures var m, n := Memory(blob, GPIO_RECORD, a), Memory(blob, GPIO_RECORD, b);
      m[0] == n[0] == blob[0] && GpioRecordAt(m, i) == GpioRecordAt(n, i)
  {
    var m, n := Memory(blob, GPIO_RECORD, a), Memory(blob, GPIO_RECORD, b);
    assert forall j :: 0 <= j < |blob| ==> m[j] == blob[j] == n[j];
  }

  lemma UartInside(blob: seq<byte>, a: nat -> byte, b: nat -> byte, i: nat)
    requires blob != [] && i < blob[0] && 1 + UART_RECORD * i + UART_READ <= |blob|
    ensures var m, n := Memory(blob, UART_RECORD, a), Memory(blob, UART_RECORD, b);
      m[0] == n[0] == blob[0] && UartRecordAt(m, i) == UartRecordAt(n, i)
  {
    hide U32At;
    var m, n, at := Memory(blob, UART_RECORD, a), Memory(blob, UART_RECORD, b), 1 + UART_RECORD * i;
    assert forall j :: 0 <= j < |blob| ==> m[j] == blob[j] == n[j];
    assert m[at + 1..at + 5] == n[at + 1..at + 5];
  }

  /** Where the last byte lies that the restore reads of the last record. */
  function LastRead(blob: seq<byte>, size: nat, used: nat): nat
    requires blob != [] && blob[0] > 0 && used > 0
  {
    1 + size * (blob[0] - 1) + used - 1
  }

  /** Memory behind a blob that is zero, but for that byte. */
  function Marked(blob: seq<byte>, size: nat, used: nat, x: byte): nat -> byte
    requires blob != [] && blob[0] > 0 && used > 0
  {
    j => if |blob| + j == LastRead(blob, size, used) then x else 0
  }

  /** Of a blob that is too short that byte is not part; nothing else tells the two memories apart. */
  lemma MarkTells(blob: seq<byte>, size: nat, used: nat)
    requires blob != [] && !ReadsInside(blob, size, used) && 0 < used <= size
    ensures blob[0] > 0
    ensures var m := Memory(blob, size, Marked(blob, size, used, 0));
            var n := Memory(blob, size, Marked(blob, size, used, 1));
            var last, at := LastRead(blob, size, used), 1 + size * (blob[0] - 1);
      && |m| == |n| == 1 + size * blob[0] && last < |m| && m[last] == 0 && n[last] == 1
      && m[0] == n[0] == blob[0]
      && (forall j :: 0 <= j < |m| && j != last ==> m[j] == n[j])
      && (at != last ==> m[at] == if at < |blob| then blob[at] else 0)
  {
    MulStep(size, blob[0]);
  }

  lemma GpioOutside(blob: seq<byte>)
    requires blob != [] && !ReadsInside(blob, GPIO_RECORD, GPIO_READ)
    ensures blob[0] > 0
    ensures var zero, one := Marked(blob, GPIO_RECORD, GPIO_READ, 0), Marked(blob, GPIO_RECORD, GPIO_READ, 1);
            var r, s, last := GpioRecordsRead(blob, zero), GpioRecordsRead(blob, one), blob[0] - 1;
      && |r| == |s| == blob[0] && r[..last] == s[..last] && r[last].inUse == 0 && s[last].inUse == 1
      && r[last].gpio == s[last].gpio
      && (!LastIgnored(blob, GPIO_RECORD, GPIO_COUNT) ==> r[last].gpio < GPIO_COUNT)
  {
    MarkTells(blob, GPIO_RECORD, GPIO_READ);
    hide Memory, Marked, ReadsInside;
    var last := blob[0] - 1;
    var m := Memory(blob, GPIO_RECORD, Marked(blob, GPIO_RECORD, GPIO_READ, 0));
    var n := Memory(blob, GPIO_RECORD, Marked(blob, GPIO_RECORD, GPIO_READ, 1));
    forall i | 0 <= i < last ensures GpioRecordAt(m, i) == GpioRecordAt(n, i) {
    }
    assert GpioRecordAt(m, last).gpio == GpioRecordAt(n, last).gpio == m[1 + GPIO_RECORD * last];
    assert GpioRecordAt(m, last).inUse == 0 && GpioRecordAt(n, last).inUse == 1;
  }

  lemma UartOutside(blob: seq<byte>)
    requires blob != [] && !ReadsInside(blob, UART_RECORD, UART_READ)
    ensures blob[0] > 0
    ensures var zero, one := Marked(blob, UART_RECORD, UART_READ, 0), Marked(blob, UART_RECORD, UART_READ, 1);
            var r, s, last := UartRecordsRead(blob, zero), UartRecordsRead(blob, one), blob[0] - 1;
      && |r| == |s| == blob[0] && r[..last] == s[..last] && r[last].inUse == 0 && s[last].inUse == 1
      && r[last].uartId == s[last].uartId
      && (!LastIgnored(blob, UART_RECORD, UART_COUNT) ==> r[last].uartId < UART_COUNT)
  {
    MarkTells(blob, UART_RECORD, UART_READ);
    hide Memory, Marked, ReadsInside, U32At;
    var last := blob[0] - 1;
    var m := Memory(blob, UART_RECORD, Marked(blob, UART_RECORD, UART_READ, 0));
    var n := Memory(blob, UART_RECORD, Marked(blob, UART_RECORD, UART_READ, 1));
    forall i | 0 <= i < last ensures UartRecordAt(m, i) == UartRecordAt(n, i) {
      var at := 1 + UART_RECORD * i;
      assert m[at + 1..at + 5] == n[at + 1..at + 5];
    }
    assert UartRecordAt(m, last).uartId == UartRecordAt(n, last).uartId == m[1 + UART_RECORD * last];
    assert UartRecordAt(m, last).inUse == 0 && UartRecordAt(n, last).inUse == 1;
  }

  /** The records of the blob, up to `k`, do not depend on the memory behind it. */
  lemma GpioSameRead(blob: seq<byte>, a: nat -> byte, b: nat -> byte, k: nat)
    requires blob != [] && k <= blob[0]
    requires forall i :: 0 <= i < k ==> 1 + GPIO_RECORD * i + GPIO_READ <= |blob|
    ensures |GpioRecordsRead(blob, a)| == |GpioRecordsRead(blob, b)| == blob[0]
    ensures GpioRecordsRead(blob, a)[..k] == GpioRecordsRead(blob, b)[..k]
  {
    hide GpioRecordAt;
    forall i | 0 <= i < k ensures GpioRecordsRead(blob, a)[i] == GpioRecordsRead(blob, b)[i] {
      GpioInside(blob, a, b, i);
    }
  }

  lemma UartSameRead(blob: seq<byte>, a: nat -> byte, b: nat -> byte, k: nat)
    requires blob != [] && k <= blob[0]
    requires forall i :: 0 <= i < k ==> 1 + UART_RECORD * i + UART_READ <= |blob|
    ensures |UartRecordsRead(blob, a)| == |UartRecordsRead(blob, b)| == blob[0]
    ensures UartRecordsRead(blob, a)[..k] == UartRecordsRead(blob, b)[..k]
  {
    hide UartRecordAt;
    forall i | 0 <= i < k ensures UartRecordsRead(blob, a)[i] == UartRecordsRead(blob, b)[i] {
      UartInside(blob, a, b, i);
    }
  }

  /** The exact condition for pins: what is read does not depend on the memory behind the blob if and only
      if the blob counts no record, or reaches to the sixth byte of its last one. */
  lemma GpioReadInsideIff(blob: seq<byte>)
    requires blob != []
    ensures (forall a, b :: GpioRecordsRead(blob, a) == GpioRecordsRead(blob, b))
            <==> ReadsInside(blob, GPIO_RECORD, GPIO_READ)
  {
    hide ReadsInside, GpioRecordsRead;
    if ReadsInside(blob, GPIO_RECORD, GPIO_READ) {
      forall i | 0 <= i < blob[0] ensures 1 + GPIO_RECORD * i + GPIO_READ <= |blob| {
        InsideBlob(blob, GPIO_RECORD, GPIO_READ, i);
      }
      forall a, b ensures GpioRecordsRead(blob, a) == GpioRecordsRead(blob, b) {
        GpioSameRead(blob, a, b, blob[0]);
        assert GpioRecordsRead(blob, a)[..blob[0]] == GpioRecordsRead(blob, a);
        assert GpioRecordsRead(blob, b)[..blob[0]] == GpioRecordsRead(blob, b);
      }
    } else {
      GpioOutside(blob);
    }
  }

  /** The same for UARTs, with the eleventh byte. */
  lemma UartReadInsideIff(blob: seq<byte>)
    requires blob != []
    ensures (forall a, b :: UartRecordsRead(blob, a) == UartRecordsRead(blob, b))
            <==> ReadsInside(blob, UART_RECORD, UART_READ)
  {
    hide ReadsInside, UartRecordsRead;
    if ReadsInside(blob, UART_RECORD, UART_READ) {
      forall i | 0 <= i < blob[0] ensures 1 + UART_RECORD * i + UART_READ <= |blob| {
        InsideBlob(blob, UART_RECORD, UART_READ, i);
      }
      forall a, b ensures UartRecordsRead(blob, a) == UartRecordsRead(blob, b) {
        UartSameRead(blob, a, b, blob[0]);
        assert UartRecordsRead(blob, a)[..blob[0]] == UartRecordsRead(blob, a);
        assert UartRecordsRead(blob, b)[..blob[0]] == UartRecordsRead(blob, b);
      }
    } else {
      UartOutside(blob);
    }
  }

  /** The pins that a restore leaves, over every memory behind the blob, are the same if and only if what it
      reads lies inside or the last record, the only one that does not, names no pin. */
  lemma GpioRestoreIff(blob: seq<byte>, pins: seq<Pin>)
    requires blob != [] && |pins| == GPIO_COUNT
    ensures (forall a, b ::
              RestoredPins(pins, GpioRecordsRead(blob, a)) == RestoredPins(pins, GpioRecordsRead(blob, b)))
            <==> ReadsInside(blob, GPIO_RECORD, GPIO_READ) || LastIgnored(blob, GPIO_RECORD, GPIO_COUNT)
  {
    hide GpioRecordsRead, ReadsInside, LastIgnored, Marked, RestoredPins;
    GpioReadInsideIff(blob);
    if LastIgnored(blob, GPIO_RECORD, GPIO_COUNT) {
      forall a, b
        ensures RestoredPins(pins, GpioRecordsRead(blob, a)) == RestoredPins(pins, GpioRecordsRead(blob, b))
      {
        GpioLastSkipped(blob, a, b, pins);
      }
    } else if !ReadsInside(blob, GPIO_RECORD, GPIO_READ) {
      GpioOutside(blob);
      var zero, one := Marked(blob, GPIO_RECORD, GPIO_READ, 0), Marked(blob, GPIO_RECORD, GPIO_READ, 1);
      var r, s, last := GpioRecordsRead(blob, zero), GpioRecordsRead(blob, one), blob[0] - 1;
      LastPinTells(pins, r, s);
    }
  }

  lemma LastPinTells(pins: seq<Pin>, r: seq<GpioRecord>, s: seq<GpioRecord>)
    requires r != [] && s != []
    requires var p, q := r[|r| - 1], s[|s| - 1]; p.gpio == q.gpio && p.gpio < |pins| && p.inUse != q.inUse
    ensures RestoredPins(pins, r) != RestoredPins(pins, s)
  {
    var gpio := r[|r| - 1].gpio;
    assert RestoredPins(pins, r)[gpio].inUse != RestoredPins(pins, s)[gpio].inUse;
  }

  lemma LastUartTells(uarts: seq<Uart>, r: seq<UartRecord>, s: seq<UartRecord>)
    requires r != [] && s != []
    requires var p, q := r[|r| - 1], s[|s| - 1]; p.uartId == q.uartId && p.uartId < |uarts| && p.inUse != q.inUse
    ensures RestoredUarts(uarts, r) != RestoredUarts(uarts, s)
  {
    var id := r[|r| - 1].uartId;
    assert RestoredUarts(uarts, r)[id].inUse != RestoredUarts(uarts, s)[id].inUse;
  }

  lemma {:induction false} GpioLastSkipped(blob: seq<byte>, a: nat -> byte, b: nat -> byte, pins: seq<Pin>)
    requires LastIgnored(blob, GPIO_RECORD, GPIO_COUNT) && |pins| == GPIO_COUNT
    ensures RestoredPins(pins, GpioRecordsRead(blob, a)) == RestoredPins(pins, GpioRecordsRead(blob, b))
  {
    var last := blob[0] - 1;
    forall i | 0 <= i < last ensures 1 + GPIO_RECORD * i + GPIO_READ <= |blob| {
      InsideBlob(blob, GPIO_RECORD, GPIO_READ, i);
    }
    GpioSameRead(blob, a, b, last);
    assert GpioRecordsRead(blob, a)[last].gpio == blob[1 + GPIO_RECORD * last] == GpioRecordsRead(blob, b)[last].gpio;
    hide GpioRecordsRead;
  }

  /** The same for the UARTs and the pins they claim. */
  lemma UartRestoreIff(blob: seq<byte>, uarts: seq<Uart>, pins: seq<Pin>)
    requires blob != [] && |uarts| == UART_COUNT
    ensures (forall a, b ::
              && RestoredUarts(uarts, UartRecordsRead(blob, a)) == RestoredUarts(uarts, UartRecordsRead(blob, b))
              && ClaimedPins(pins, UartRecordsRead(blob, a)) == ClaimedPins(pins, UartRecordsRead(blob, b)))
            <==> ReadsInside(blob, UART_RECORD, UART_READ) || LastIgnored(blob, UART_RECORD, UART_COUNT)
  {
    hide UartRecordsRead, ReadsInside, LastIgnored, Marked, RestoredUarts, ClaimedPins;
    UartReadInsideIff(blob);
    if LastIgnored(blob, UART_RECORD, UART_COUNT) {
      forall a, b
        ensures RestoredUarts(uarts, UartRecordsRead(blob, a)) == RestoredUarts(uarts, UartRecordsRead(blob, b))
        ensures ClaimedPins(pins, UartRecordsRead(blob, a)) == ClaimedPins(pins, UartRecordsRead(blob, b))
      {
        UartLastSkipped(blob, a, b, uarts, pins);
      }
    } else if !ReadsInside(blob, UART_RECORD, UART_READ) {
      UartOutside(blob);
      var zero, one := Marked(blob, UART_RECORD, UART_READ, 0), Marked(blob, UART_RECORD, UART_READ, 1);
      var r, s, last := UartRecordsRead(blob, zero), UartRecordsRead(blob, one), blob[0] - 1;
      LastUartTells(uarts, r, s);
    }
  }

  lemma UartLastSkipped(blob: seq<byte>, a: nat -> byte, b: nat -> byte, uarts: seq<Uart>, pins: seq<Pin>)
    requires LastIgnored(blob, UART_RECORD, UART_COUNT) && |uarts| == UART_COUNT
    ensures RestoredUarts(uarts, UartRecordsRead(blob, a)) == RestoredUarts(uarts, UartRecordsRead(blob, b))
    ensures ClaimedPins(pins, UartRecordsRead(blob, a)) == ClaimedPins(pins, UartRecordsRead(blob, b))
  {
    var last := blob[0] - 1;
    forall i | 0 <= i < last ensures 1 + UART_RECORD * i + UART_READ <= |blob| {
      InsideBlob(blob, UART_RECORD, UART_READ, i);
    }
    UartSameRead(blob, a, b, last);
    var at := 1 + UART_RECORD * last;
    assert UartRecordsRead(blob, a)[last].uartId == blob[at] == UartRecordsRead(blob, b)[last].uartId;
    hide UartRecordsRead;
  }

  /** What is saved fits: the count its byte, the blobs 373 and 27 bytes, and every record is inside, so
      that a restore reads back what was saved and nothing beyond it. */
  lemma {:induction false} BlobsFit(t: Tables, beyond: nat -> byte)
    requires Shaped(t)
    ensures var g, u := GpioBlob(SavedPins(t.pins)), UartBlob(SavedUarts(t.uarts));
      && Holds(g, GPIO_RECORD) && |g| == 1 + GPIO_RECORD * g[0] <= 373
      && Holds(u, UART_RECORD) && |u| == 1 + UART_RECORD * u[0] <= 27
      && ReadsInside(g, GPIO_RECORD, GPIO_READ) && ReadsInside(u, UART_RECORD, UART_READ)
      && GpioRecordsRead(g, beyond) == SavedPins(t.pins) && UartRecordsRead(u, beyond) == SavedUarts(t.uarts)
  {
    GpioBlobShape(SavedPins(t.pins));
    UartBlobShape(SavedUarts(t.uarts));
    hide SavedPins, SavedUarts, PackGpio, PackUart, GpioBlob, UartBlob, GpioRecords, UartRecords, Memory;
    GpioBlobRoundTrip(SavedPins(t.pins));
    UartBlobRoundTrip(SavedUarts(t.uarts));
  }

  /** Two short blobs of one record: one that ends with its count byte is read on beyond its end, byte by
      byte; one with the six bytes that are read is not. */
  lemma ShortBlobReadsOn(beyond: nat -> byte, r: GpioRecord)
    ensures GpioRecordsRead([1], beyond) ==
            [GpioRecord(beyond(0), beyond(1), beyond(2), beyond(3), beyond(4), beyond(5))]
    ensures var blob := [1] + PackGpio(r)[..GPIO_READ];
            !Holds(blob, GPIO_RECORD) && GpioRecordsRead(blob, beyond) == [r]
  {
  }
}
