/** The signal transmit and capture tasks (src/gpio_signal_task.c): RMT channels, drivers, interrupt handlers and heap
    buffers under every outcome of the calls it makes. */
module RmtTask {
  import opened Board
  import opened Signals
  import opened Wire
  import opened SignalAdmission
  import opened RmtPacking
  import Float32

  datatype Ret = Ok | NoMem | NotFound | NotSupported | InvalidState | OtherError

  datatype Code = INVALID_ARG | DRIVER | UNSUPPORTED | RESOURCE_EXHAUSTED | NO_MEM

  datatype Event = Ack(cmdId: nat) | Error(cmdId: nat, code: Code) | Captured(cmdId: nat, gpio: nat, edges: seq<Edge>)

  datatype TxItem = TxItem(
    cmdId: nat, gpio: nat, signalLen: nat, carrierHz: nat, duty: Float32.Float, repeatCount: nat, repeatGapUs: nat,
    signalData: array?<byte>, doRx: bool, rxMaxEdges: nat, rxTotalUs: nat)

  /** What the calls made for one item return, and what the interrupt and the receiver deliver. */
  datatype Outcomes = Outcomes(
    mutexCreated: bool, config: Ret, install: Ret, edgesGranted: bool, isrService: Ret, isrAdd: Ret,
    chunkGranted: bool, writeTaken: nat -> bool, interrupts: seq<Edge>, rxStart: nat, polls: seq<Poll>,
    payloadGranted: bool)

  /** An item of the capture task. The dispatcher gives it no RMT channel. */
  datatype RxItem = RxItem(cmdId: nat, gpio: nat, maxEdges: nat, rxChannel: int)

  datatype RxOutcomes = RxOutcomes(edgesGranted: bool, isrService: Ret, interrupts: seq<Edge>, payloadGranted: bool)

  const FREE: seq<bool> := [false, false]

  // ---- What is reported ----------------------------------------------------------------------------------

  predicate CarrierOk(item: TxItem) { CarrierAccepted(item.carrierHz, item.duty) }

  function ConfigCode(ret: Ret): Code { if ret == NotFound then RESOURCE_EXHAUSTED else DRIVER }

  function InstallCode(ret: Ret): Code { if ret == NotSupported then UNSUPPORTED else RESOURCE_EXHAUSTED }

  /** Setting up the capture of an exchange. An interrupt service that is already there is fine. */
  function CaptureSetup(d: Outcomes): Ret {
    if !d.edgesGranted then NoMem
    else if d.isrService == Ok || d.isrService == InvalidState then d.isrAdd
    else d.isrService
  }

  ghost predicate WriteRefused(all: seq<Op>, ok: nat -> bool) {
    exists k: nat :: k < |all| && all[k].Write? && !ok(k)
  }

  function Capture(item: TxItem, edges: seq<Edge>, granted: bool): seq<Event> {
    if granted then [Captured(item.cmdId, item.gpio, Cut(edges, item.rxMaxEdges))] else []
  }

  /** The signal of an item with data; `edges` is what its bytes hold. */
  ghost function ReportedSent(item: TxItem, edges: seq<Edge>, d: Outcomes): seq<Event> {
    if d.config != Ok then [Error(item.cmdId, ConfigCode(d.config))]
    else if d.install != Ok then [Error(item.cmdId, InstallCode(d.install))]
    else if item.doRx && CaptureSetup(d) != Ok then
      [Error(item.cmdId, if CaptureSetup(d) == NoMem then NO_MEM else DRIVER)]
    else ReportedPlayed(item, edges, d)
  }

  /** The part with the driver installed and the capture set up. */
  ghost function ReportedPlayed(item: TxItem, edges: seq<Edge>, d: Outcomes): seq<Event> {
    if !d.chunkGranted then [Error(item.cmdId, NO_MEM)]
    else if WriteRefused(Transmission(edges, item.repeatCount, item.repeatGapUs), d.writeTaken) then
      [Error(item.cmdId, DRIVER)]
    else (if item.doRx then Capture(item, d.interrupts, d.payloadGranted) else []) + [Ack(item.cmdId)]
  }

  /** When reception is to end, in microseconds since boot as 32 bits hold it. */
  function RxEnd(item: TxItem, d: Outcomes): nat { WindowEnd(d.rxStart, item.rxTotalUs) }

  /** An item that only receives. Running out of memory is reported and then acknowledged as well. */
  function ReportedReceived(item: TxItem, d: Outcomes): seq<Event> {
    if d.config != Ok then [Error(item.cmdId, ConfigCode(d.config))]
    else if d.install != Ok then [Error(item.cmdId, InstallCode(d.install))]
    else if !d.edgesGranted then [Error(item.cmdId, NO_MEM), Ack(item.cmdId)]
    else Capture(item, Seen(JoinedBatches(Delivered(d.polls, RxEnd(item, d)))), d.payloadGranted) + [Ack(item.cmdId)]
  }

  ghost function Reported(item: TxItem, edges: seq<Edge>, d: Outcomes, mutex: bool): seq<Event> {
    if !CarrierOk(item) then [Error(item.cmdId, INVALID_ARG)]
    else if !mutex && !d.mutexCreated then [Error(item.cmdId, RESOURCE_EXHAUSTED)]
    else if item.signalData != null then ReportedSent(item, edges, d)
    else if item.doRx then ReportedReceived(item, d)
    else [Ack(item.cmdId)]
  }

  /** The item carries a signal, and every call up to the first write succeeds. */
  predicate Plays(item: TxItem, d: Outcomes, mutex: bool) {
    && CarrierOk(item) && (mutex || d.mutexCreated) && item.signalData != null && d.config == Ok && d.install == Ok
    && (item.doRx ==> CaptureSetup(d) == Ok) && d.chunkGranted
  }

  /** What the driver is asked to play for an item: its repetitions, up to a write that is refused. */
  ghost predicate Played(item: TxItem, edges: seq<Edge>, d: Outcomes, mutex: bool, ops: seq<Op>) {
    if Plays(item, d, mutex) then
      exists failed :: Attempt(ops, Transmission(edges, item.repeatCount, item.repeatGapUs), d.writeTaken, 0, failed)
    else ops == []
  }

  function ReportedCapture(item: RxItem, d: RxOutcomes, isrReady: bool): seq<Event> {
    if !d.edgesGranted then [Error(item.cmdId, NO_MEM)]
    else if !isrReady && d.isrService != Ok && d.isrService != InvalidState then [Error(item.cmdId, DRIVER)]
    else
      (if d.payloadGranted then [Captured(item.cmdId, item.gpio, Cut(d.interrupts, item.maxEdges))] else [])
      + [Ack(item.cmdId)]
  }

  // ---- The task --------------------------------------------------------------------------------------------

  class SignalTask {
    var mutex: bool
    const txInUse: array<bool>
    const rxInUse: array<bool>
    /** Channels with a driver, and pins with an exchange handler. */
    var installed: set<int>
    var handlers: set<nat>
    /** Pins with a handler of the capture task, and whether it has installed the interrupt service. */
    var captureHandlers: set<nat>
    var isrReady: bool
    var events: seq<Event>
    /** What the driver was asked to play, and the gaps kept between. */
    var played: seq<Op>
    /** The heap blocks that are allocated and not freed. */
    ghost var live: set<object>

    ghost predicate Valid() {
      txInUse.Length == 2 && rxInUse.Length == 2 && txInUse != rxInUse
    }

    /** Nothing is held: every channel is free, no driver is installed and no handler registered. */
    ghost predicate Idle()
      reads this, txInUse, rxInUse
      requires Valid()
    {
      txInUse[..] == FREE && rxInUse[..] == FREE && installed == {} && handlers == {}
    }

    /** The state after gpio_signal_init. */
    constructor (mutexCreated: bool)
      ensures Valid() && Idle() && mutex == mutexCreated && events == [] && played == [] && live == {}
      ensures captureHandlers == {} && !isrReady
      ensures fresh(txInUse) && fresh(rxInUse)
    {
      mutex := mutexCreated;
      txInUse := new bool[2](_ => false);
      rxInUse := new bool[2](_ => false);
      installed, handlers, captureHandlers, isrReady, events, live := {}, {}, {}, false, [], {};
      played := [];
    }

    method Malloc<T(0)>(n: nat, granted: bool) returns (block: array?<T>)
      modifies this`live
      ensures granted ==> block != null && fresh(block) && block.Length == n && live == old(live) + {block}
      ensures !granted ==> block == null && live == old(live)
    {
      block := null;
      if granted {
        block := new T[n];
        live := live + {block};
      }
    }

    /** A null pointer may be freed, and a block that is allocated: never one freed before. */
    method Free(block: object?)
      requires block == null || block in live
      modifies this`live
      ensures live == if block == null then old(live) else old(live) - {block}
    {
      if block != null {
        live := live - {block};
      }
    }

    method ReserveTx(mutexCreated: bool) returns (reserved: bool, channel: int)
      requires Valid()
      modifies this`mutex, txInUse
      ensures mutex == (old(mutex) || mutexCreated)
      ensures reserved <==> mutex && false in old(txInUse[..])
      ensures reserved ==> 0 <= channel < 2 && !old(txInUse[channel])
      ensures txInUse[..] == if reserved then old(txInUse[..])[channel := true] else old(txInUse[..])
    {
      channel := -1;
      if !mutex {
        mutex := mutexCreated;
        if !mutex {
          return false, channel;
        }
      }
      for i := 0 to 2
        invariant forall j :: 0 <= j < i ==> txInUse[j]
        invariant txInUse[..] == old(txInUse[..])
      {
        if !txInUse[i] {
          txInUse[i] := true;
          return true, i;
        }
      }
      reserved := false;
    }

    method ReserveRx(mutexCreated: bool) returns (reserved: bool, channel: int)
      requires Valid()
      modifies this`mutex, rxInUse
      ensures mutex == (old(mutex) || mutexCreated)
      ensures reserved <==> mutex && false in old(rxInUse[..])
      ensures reserved ==> 2 <= channel < 4 && !old(rxInUse[channel - 2])
      ensures rxInUse[..] == if reserved then old(rxInUse[..])[channel - 2 := true] else old(rxInUse[..])
    {
      channel := -1;
      if !mutex {
        mutex := mutexCreated;
        if !mutex {
          return false, channel;
        }
      }
      for i := 0 to 2
        invariant forall j :: 0 <= j < i ==> rxInUse[j]
        invariant rxInUse[..] == old(rxInUse[..])
      {
        if !rxInUse[i] {
          rxInUse[i] := true;
          return true, i + 2;
        }
      }
      reserved := false;
    }

    method ReleaseTx(channel: int)
      requires Valid()
      modifies txInUse
      ensures txInUse[..] == if mutex && 0 <= channel <= 1 then old(txInUse[..])[channel := false] else old(txInUse[..])
    {
      if !mutex || channel < 0 || channel > 1 {
        return;
      }
      txInUse[channel] := false;
    }

    method ReleaseRx(channel: int)
      requires Valid()
      modifies rxInUse
      ensures rxInUse[..] ==
        if mutex && 2 <= channel <= 3 then old(rxInUse[..])[channel - 2 := false] else old(rxInUse[..])
    {
      if !mutex || channel < 2 || channel > 3 {
        return;
      }
      rxInUse[channel - 2] := false;
    }

    /** The capture interrupt: it stores edges while there is room. */
    static method CaptureEdges(edges: array<Edge>, interrupts: seq<Edge>) returns (count: nat)
      modifies edges
      ensures count <= edges.Length && edges[..count] == Cut(interrupts, edges.Length)
    {
      count := 0;
      for i := 0 to |interrupts|
        invariant count <= edges.Length && edges[..count] == Cut(interrupts[..i], edges.Length)
      {
        if count < edges.Length {
          edges[count] := interrupts[i];
          count := count + 1;
        }
      }
      assert interrupts[..|interrupts|] == interrupts;
    }

    /** Build the capture payload, send it and free it. */
    method SendCapture(cmdId: nat, gpio: nat, edges: seq<Edge>, granted: bool)
      modifies this`events, this`live
      ensures live == old(live)
      ensures events == old(events) + if granted then [Captured(cmdId, gpio, edges)] else []
    {
      var payload := Malloc<byte>(13 + 5 * |edges|, granted);
      if payload != null {
        events := events + [Captured(cmdId, gpio, edges)];
        Free(payload);
      }
    }

    method Fail(item: TxItem, code: Code)
      modifies this`events
      ensures events == old(events) + [Error(item.cmdId, code)]
    {
      events := events + [Error(item.cmdId, code)];
    }

    /** Remove the handler of an exchange and free its buffer. */
    method StopCapture(item: TxItem, edges: array?<Edge>)
      requires item.doRx ==> edges != null && edges in live
      modifies this`handlers, this`live
      ensures handlers == if item.doRx then old(handlers) - {item.gpio} else old(handlers)
      ensures live == if item.doRx && edges != null then old(live) - {edges} else old(live)
    {
      if item.doRx {
        handlers := handlers - {item.gpio};
        Free(edges);
      }
    }

    /** Set up the capture of an exchange. */
    method StartCapture(item: TxItem, d: Outcomes) returns (edges: array?<Edge>, ret: Ret)
      modifies this`handlers, this`live
      ensures ret == CaptureSetup(d)
      ensures (edges != null) == d.edgesGranted
      ensures edges != null ==> fresh(edges) && edges.Length == item.rxMaxEdges
      ensures live == if edges != null then old(live) + {edges} else old(live)
      ensures handlers == if ret == Ok then old(handlers) + {item.gpio} else old(handlers)
    {
      edges := Malloc<Edge>(item.rxMaxEdges, d.edgesGranted);
      ret := if edges != null then d.isrService else NoMem;
      if ret == InvalidState {
        ret := Ok;
      }
      if ret == Ok {
        ret := d.isrAdd;
        if ret == Ok {
          handlers := handlers + {item.gpio};
        }
      }
    }

    /** Capture for the requested time, then remove the handler, send what was captured and free it. */
    method FinishCapture(item: TxItem, edges: array<Edge>, d: Outcomes)
      requires edges in live && edges.Length == item.rxMaxEdges
      modifies this`handlers, this`events, this`live, edges
      ensures handlers == old(handlers) - {item.gpio} && live == old(live) - {edges}
      ensures events == old(events) + Capture(item, d.interrupts, d.payloadGranted)
    {
      hide Cut;
      var count := CaptureEdges(edges, d.interrupts);
      handlers := handlers - {item.gpio};
      SendCapture(item.cmdId, item.gpio, edges[..count], d.payloadGranted);
      Free(edges);
    }

    /** The clean-up of a signal that was not played to its end. */
    method ReleaseSignal(item: TxItem, channel: int, edges: array?<Edge>)
      requires Valid() && item.signalData != null && item.signalData in live
      requires item.doRx ==> edges != null && edges in live
      modifies this`handlers, this`live, txInUse
      ensures txInUse[..] == if mutex && 0 <= channel <= 1 then old(txInUse[..])[channel := false] else old(txInUse[..])
      ensures handlers == if item.doRx then old(handlers) - {item.gpio} else old(handlers)
      ensures live == old(live) - {item.signalData} - if item.doRx && edges != null then {edges} else {}
    {
      ReleaseTx(channel);
      StopCapture(item, edges);
      assert item.doRx && edges != null ==> edges as object != item.signalData as object;
      Free(item.signalData);
    }

    /** Play the signal and end the exchange, with the driver installed and the capture set up. */
    method PlaySignal(item: TxItem, channel: int, edges: array?<Edge>, d: Outcomes) returns (ghost ops: seq<Op>)
      requires Valid() && mutex && 0 <= channel < 2
      requires txInUse[..] == FREE[channel := true] && installed == {channel}
      requires handlers == if item.doRx then {item.gpio} else {}
      requires item.signalData != null && item.signalData in live && item.signalData.Length == 5 * item.signalLen
      requires item.doRx ==> edges != null && edges in live && edges.Length == item.rxMaxEdges
      requires CarrierOk(item) && d.config == Ok && d.install == Ok && (item.doRx ==> CaptureSetup(d) == Ok)
      modifies this`installed, this`handlers, this`events, this`played, this`live, txInUse, edges
      ensures txInUse[..] == FREE && installed == {} && handlers == {}
      ensures played == old(played) + ops && Played(item, EdgesIn(old(item.signalData[..])), d, true, ops)
      ensures live == old(live) - {item.signalData} - if item.doRx && edges != null then {edges} else {}
      ensures events == old(events) + ReportedPlayed(item, EdgesIn(old(item.signalData[..])), d)
    {
      hide EdgesIn, Transmission, WriteRefused, Capture, ChunkSize, Attempt, CarrierAccepted, CaptureSetup;
      ops := [];
      ghost var signal := EdgesIn(item.signalData[..]);
      var chunkBuf := Malloc<RmtItem>(ChunkSize(item.signalLen), d.chunkGranted);
      if chunkBuf == null {
        Fail(item, NO_MEM);
        installed := installed - {channel};
        ReleaseSignal(item, channel, edges);
        return;
      }
      var done, failed :=
        Transmit(item.signalData, item.signalLen, item.repeatCount, item.repeatGapUs, chunkBuf, d.writeTaken);
      ops := done;
      played := played + done;
      AttemptFails(done, Transmission(signal, item.repeatCount, item.repeatGapUs), d.writeTaken, failed);
      Free(chunkBuf);
      installed := installed - {channel};
      if failed {
        Fail(item, DRIVER);
        ReleaseSignal(item, channel, edges);
        return;
      }
      if item.doRx {
        FinishCapture(item, edges, d);
      }
      events := events + [Ack(item.cmdId)];
      ReleaseTx(channel);
      Free(item.signalData);
    }

    /** The clean-up of a signal whose driver could not be set up. */
    method ReleaseChannels(item: TxItem, channel: int, rxChannel: int)
      requires Valid() && mutex && 0 <= channel < 2 && rxInUse[..] == FREE
      requires item.signalData != null && item.signalData in live
      modifies this`live, txInUse, rxInUse
      ensures txInUse[..] == old(txInUse[..])[channel := false] && rxInUse[..] == FREE
      ensures live == old(live) - {item.signalData}
    {
      ReleaseTx(channel);
      if rxChannel >= 0 {
        ReleaseRx(rxChannel);
      }
      Free(item.signalData);
    }

    /** Send the signal of an item; a channel has been reserved. */
    method SendSignal(item: TxItem, channel: int, rxChannel: int, d: Outcomes) returns (ghost ops: seq<Op>)
      requires Valid() && mutex && 0 <= channel < 2
      requires txInUse[..] == FREE[channel := true] && rxInUse[..] == FREE && installed == {} && handlers == {}
      requires item.signalData != null && item.signalData in live && item.signalData.Length == 5 * item.signalLen
      requires CarrierOk(item)
      modifies this`installed, this`handlers, this`events, this`played, this`live, txInUse, rxInUse
      ensures Idle() && live == old(live) - {item.signalData}
      ensures played == old(played) + ops && Played(item, EdgesIn(old(item.signalData[..])), d, true, ops)
      ensures events == old(events) + ReportedSent(item, EdgesIn(old(item.signalData[..])), d)
    {
      hide EdgesIn, ReportedPlayed, CaptureSetup, Attempt, Transmission, CarrierAccepted;
      ops := [];
      if d.config != Ok {
        Fail(item, ConfigCode(d.config));
        ReleaseChannels(item, channel, rxChannel);
        return;
      }
      if d.install != Ok {
        Fail(item, InstallCode(d.install));
        ReleaseChannels(item, channel, rxChannel);
        return;
      }
      installed := installed + {channel};
      var edges: array?<Edge> := null;
      if item.doRx {
        var ret;
        edges, ret := StartCapture(item, d);
        CaptureNeedsMemory(d);
        if ret != Ok {
          Fail(item, if ret == NoMem then NO_MEM else DRIVER);
          installed := installed - {channel};
          ReleaseTx(channel);
          ReleaseRx(rxChannel);
          Free(edges);
          Free(item.signalData);
          return;
        }
      }
      ops := PlaySignal(item, channel, edges, d);
    }

    /** Receive only; both channels have been reserved, so the source's check for a missing one cannot fail. */
    method ReceiveSignal(item: TxItem, txChannel: int, rxChannel: int, d: Outcomes)
      requires Valid() && mutex && 0 <= txChannel < 2 && 2 <= rxChannel < 4
      requires txInUse[..] == FREE[txChannel := true] && rxInUse[..] == FREE[rxChannel - 2 := true]
      requires installed == {} && handlers == {}
      modifies this`installed, this`events, this`live, txInUse, rxInUse
      ensures Idle() && live == old(live)
      ensures events == old(events) + ReportedReceived(item, d)
    {
      hide Cut, Seen, JoinedBatches, Delivered;
      ReleaseTx(txChannel);
      if d.config != Ok {
        Fail(item, ConfigCode(d.config));
        ReleaseRx(rxChannel);
        return;
      }
      if d.install != Ok {
        Fail(item, InstallCode(d.install));
        ReleaseRx(rxChannel);
        return;
      }
      installed := installed + {rxChannel};
      var rxEndTime := (d.rxStart + item.rxTotalUs) % U32;
      var rxEdges := Malloc<Edge>(item.rxMaxEdges, d.edgesGranted);
      if rxEdges == null {
        Fail(item, NO_MEM);
        installed := installed - {rxChannel};
        ReleaseRx(rxChannel);
      } else {
        var edged := Receive(d.polls, rxEndTime, rxEdges);
        installed := installed - {rxChannel};
        SendCapture(item.cmdId, item.gpio, rxEdges[..edged], d.payloadGranted);
        Free(rxEdges);
      }
      ReleaseRx(rxChannel);
      events := events + [Ack(item.cmdId)];
    }

    /** One item from the queue. */
    method ProcessItem(item: TxItem, d: Outcomes) returns (ghost ops: seq<Op>)
      requires Valid() && Idle()
      requires item.signalData != null ==> item.signalData in live && item.signalData.Length == 5 * item.signalLen
      modifies this`mutex, this`installed, this`handlers, this`events, this`played, this`live, txInUse, rxInUse
      ensures Idle() && mutex == (old(mutex) || (CarrierOk(item) && d.mutexCreated))
      ensures played == old(played) + ops && Played(item, old(SignalOf(item)), d, old(mutex), ops)
      ensures live == if item.signalData == null then old(live) else old(live) - {item.signalData}
      ensures events == old(events) + Reported(item, old(SignalOf(item)), d, old(mutex))
    {
      hide ReportedSent, ReportedReceived, Attempt, Transmission, CaptureSetup;
      ops := [];
      if item.carrierHz > 0 {
        var notPositive :=
          match item.duty case Finite(v) => v <= 0.0 case Infinite(negative) => negative case NaN => false;
        var aboveOne :=
          match item.duty case Finite(v) => v > 1.0 case Infinite(negative) => !negative case NaN => false;
        if item.carrierHz > MAX_CARRIER_HZ || notPositive || aboveOne {
          Fail(item, INVALID_ARG);
          Free(item.signalData);
          return;
        }
      }
      var reserved, txChannel := ReserveTx(d.mutexCreated);
      if !reserved {
        assert FREE[0] == false;
        Fail(item, RESOURCE_EXHAUSTED);
        Free(item.signalData);
        return;
      }
      var rxChannel := -1;
      if item.doRx && item.signalData == null {
        reserved, rxChannel := ReserveRx(false);
        assert reserved by { assert FREE[0] == false; }
      }
      if item.signalData != null {
        ops := SendSignal(item, txChannel, rxChannel, d);
      } else if item.doRx {
        ReceiveSignal(item, txChannel, rxChannel, d);
      } else {
        events := events + [Ack(item.cmdId)];
        ReleaseTx(txChannel);
        Free(item.signalData);
      }
    }

    /** The task's loop over the items it receives. At its top everything is free again; each signal buffer
        has been freed, once, and nothing else is left allocated. */
    method Loop(items: seq<TxItem>, ds: seq<Outcomes>) returns (ghost parts: seq<seq<Op>>)
      requires Valid() && Idle() && |items| == |ds|
      requires Owned(items) && Buffers(items) <= live
      modifies this`mutex, this`installed, this`handlers, this`events, this`played, this`live, txInUse, rxInUse
      ensures Idle() && live == old(live) - Buffers(items)
      ensures played == old(played) + Concat(parts) && PlayedAll(items, old(Carried(items)), ds, old(mutex), parts)
      ensures events == old(events) + ReportedAll(items, old(Carried(items)), ds, old(mutex))
    {
      hide Reported, ReportedAll, MutexAfterAll, MutexAfter, Buffers, Played, PlayedAll;
      parts := [];
      ghost var signals := Carried(items);
      assert items[..0] == [] && signals[..0] == [] && ds[..0] == [];
      NothingYet(mutex);
      for i := 0 to |items|
        invariant Idle()
        invariant live == old(live) - Buffers(items[..i])
        invariant mutex == MutexAfterAll(items[..i], ds[..i], old(mutex))
        invariant events == old(events) + ReportedAll(items[..i], signals[..i], ds[..i], old(mutex))
        invariant played == old(played) + Concat(parts)
        invariant PlayedAll(items[..i], signals[..i], ds[..i], old(mutex), parts)
      {
        if items[i].signalData != null {
          BufferStillLive(items, i);
        }
        BuffersSnoc(items, i);
        ReportedAllSnoc(items, signals, ds, old(mutex), i);
        assert signals[i] == SignalOf(items[i]);
        ghost var ops := ProcessItem(items[i], ds[i]);
        PlayedAllSnoc(items, signals, ds, old(mutex), i, parts, ops);
        parts := parts + [ops];
        assert mutex == MutexAfterAll(items[..i + 1], ds[..i + 1], old(mutex)) by { MutexStep(items[i], ds[i]); }
      }
      assert items[..|items|] == items && signals[..|items|] == signals && ds[..|items|] == ds;
    }

    /** One item of the capture task. It holds no RMT channel, so what it releases is none; its buffer is
        freed and its handler removed on every path. */
    method CaptureItem(item: RxItem, d: RxOutcomes)
      requires Valid() && item.rxChannel == -1 && item.gpio !in captureHandlers
      modifies this`captureHandlers, this`isrReady, this`events, this`live, rxInUse
      ensures rxInUse[..] == old(rxInUse[..]) && captureHandlers == old(captureHandlers) && live == old(live)
      ensures isrReady == (old(isrReady) || (d.edgesGranted && (d.isrService == Ok || d.isrService == InvalidState)))
      ensures events == old(events) + ReportedCapture(item, d, old(isrReady))
    {
      hide Cut;
      var edges := Malloc<Edge>(item.maxEdges, d.edgesGranted);
      if edges == null {
        events := events + [Error(item.cmdId, NO_MEM)];
        ReleaseRx(item.rxChannel);
        return;
      }
      if !isrReady {
        if d.isrService == Ok || d.isrService == InvalidState {
          isrReady := true;
        } else {
          events := events + [Error(item.cmdId, DRIVER)];
          Free(edges);
          ReleaseRx(item.rxChannel);
          return;
        }
      }
      captureHandlers := captureHandlers + {item.gpio};
      var count := CaptureEdges(edges, d.interrupts);
      SendCapture(item.cmdId, item.gpio, edges[..count], d.payloadGranted);
      captureHandlers := captureHandlers - {item.gpio};
      Free(edges);
      ReleaseRx(item.rxChannel);
      events := events + [Ack(item.cmdId)];
    }
  }

  // ---- Whole runs ------------------------------------------------------------------------------------------

  function MutexAfter(item: TxItem, d: Outcomes, mutex: bool): bool {
    mutex || (CarrierOk(item) && d.mutexCreated)
  }

  function MutexAfterAll(items: seq<TxItem>, ds: seq<Outcomes>, mutex: bool): bool
    requires |items| == |ds|
  {
    var n := |items| - 1;
    if items == [] then mutex else MutexAfter(items[n], ds[n], MutexAfterAll(items[..n], ds[..n], mutex))
  }

  /** Everything reported for a sequence of items, given the signals they carry. */
  ghost function ReportedAll(items: seq<TxItem>, signals: seq<seq<Edge>>, ds: seq<Outcomes>, mutex: bool): seq<Event>
    requires |items| == |signals| == |ds|
  {
    var n := |items| - 1;
    if items == [] then []
    else
      ReportedAll(items[..n], signals[..n], ds[..n], mutex)
      + Reported(items[n], signals[n], ds[n], MutexAfterAll(items[..n], ds[..n], mutex))
  }

  function Concat(parts: seq<seq<Op>>): seq<Op> {
    if parts == [] then [] else Concat(parts[..|parts| - 1]) + parts[|parts| - 1]
  }

  /** Part by part, what is played for each item. */
  ghost predicate PlayedAll(items: seq<TxItem>, signals: seq<seq<Edge>>, ds: seq<Outcomes>, mutex: bool,
                            parts: seq<seq<Op>>)
  {
    && |items| == |signals| == |ds| == |parts|
    && forall i :: 0 <= i < |items| ==>
         Played(items[i], signals[i], ds[i], MutexAfterAll(items[..i], ds[..i], mutex), parts[i])
  }

  lemma PlayedAllSnoc(items: seq<TxItem>, signals: seq<seq<Edge>>, ds: seq<Outcomes>, mutex: bool, i: nat,
                      parts: seq<seq<Op>>, ops: seq<Op>)
    requires i < |items| == |signals| == |ds| && PlayedAll(items[..i], signals[..i], ds[..i], mutex, parts)
    requires Played(items[i], signals[i], ds[i], MutexAfterAll(items[..i], ds[..i], mutex), ops)
    ensures PlayedAll(items[..i + 1], signals[..i + 1], ds[..i + 1], mutex, parts + [ops])
    ensures Concat(parts + [ops]) == Concat(parts) + ops
  {
    hide Played, MutexAfterAll;
    var more := parts + [ops];
    assert more[..|more| - 1] == parts;
    forall k | 0 <= k <= i
      ensures Played(items[k], signals[k], ds[k], MutexAfterAll(items[..k], ds[..k], mutex), more[k])
    {
      if k < i {
        assert items[..i][..k] == items[..k] && ds[..i][..k] == ds[..k];
        assert items[..i][k] == items[k] && signals[..i][k] == signals[k] && ds[..i][k] == ds[k];
      }
    }
    forall k | 0 <= k <= i ensures items[..i + 1][..k] == items[..k] && ds[..i + 1][..k] == ds[..k] {
    }
  }

  /** The signal buffers of some items. */
  ghost function Buffers(items: seq<TxItem>): set<object> {
    set i | 0 <= i < |items| && items[i].signalData != null :: items[i].signalData as object
  }

  ghost function Carried(items: seq<TxItem>): seq<seq<Edge>>
    reads Buffers(items)
  {
    seq(|items|, i requires 0 <= i < |items| reads Buffers(items) => SignalOf(items[i]))
  }

  /** Each item owns its buffer, and the buffer has the length the item says. */
  ghost predicate Owned(items: seq<TxItem>) {
    && (forall i :: 0 <= i < |items| && items[i].signalData != null ==>
         items[i].signalData.Length == 5 * items[i].signalLen)
    && (forall i, j :: 0 <= i < j < |items| && items[i].signalData != null
                       ==> items[i].signalData != items[j].signalData)
  }

  lemma NothingYet(mutex: bool)
    ensures Buffers([]) == {} && ReportedAll([], [], [], mutex) == [] && MutexAfterAll([], [], mutex) == mutex
    ensures PlayedAll([], [], [], mutex, []) && Concat([]) == []
  {
  }

  lemma MutexStep(item: TxItem, d: Outcomes)
    ensures forall mutex :: MutexAfter(item, d, mutex) == (mutex || (CarrierOk(item) && d.mutexCreated))
  {
  }

  /** An item's buffer is among the buffers of all items, and not among those of the items before it. */
  lemma BufferStillLive(items: seq<TxItem>, i: nat)
    requires i < |items| && Owned(items) && items[i].signalData != null
    ensures items[i].signalData in Buffers(items) && items[i].signalData !in Buffers(items[..i])
  {
  }

  lemma BuffersSnoc(items: seq<TxItem>, i: nat)
    requires i < |items|
    ensures Buffers(items[..i + 1]) ==
            Buffers(items[..i]) + if items[i].signalData != null then {items[i].signalData as object} else {}
  {
    var more, fewer := items[..i + 1], items[..i];
    forall o | o in Buffers(fewer) ensures o in Buffers(more) {
      var j :| 0 <= j < i && fewer[j].signalData != null && o == fewer[j].signalData as object;
      assert more[j] == fewer[j];
    }
    assert more[i] == items[i];
    forall o | o in Buffers(more) && !(items[i].signalData != null && o == items[i].signalData as object)
      ensures o in Buffers(fewer)
    {
      var j :| 0 <= j <= i && more[j].signalData != null && o == more[j].signalData as object;
      assert fewer[j] == more[j];
    }
  }

  lemma ReportedAllSnoc(items: seq<TxItem>, signals: seq<seq<Edge>>, ds: seq<Outcomes>, mutex: bool, i: nat)
    requires |items| == |signals| == |ds| && i < |items|
    ensures ReportedAll(items[..i + 1], signals[..i + 1], ds[..i + 1], mutex) ==
            ReportedAll(items[..i], signals[..i], ds[..i], mutex)
            + Reported(items[i], signals[i], ds[i], MutexAfterAll(items[..i], ds[..i], mutex))
    ensures MutexAfterAll(items[..i + 1], ds[..i + 1], mutex) ==
            MutexAfter(items[i], ds[i], MutexAfterAll(items[..i], ds[..i], mutex))
  {
    hide Reported, MutexAfter;
    assert items[..i + 1][..i] == items[..i];
    assert signals[..i + 1][..i] == signals[..i];
    assert ds[..i + 1][..i] == ds[..i];
  }

  predicate Completes(e: Event) { e.Ack? || e.Error? }

  function Completions(events: seq<Event>): nat {
    if events == [] then 0
    else Completions(events[..|events| - 1]) + if Completes(events[|events| - 1]) then 1 else 0
  }

  /** The one path that reports an item twice: memory runs out with reception already started. */
  predicate AnsweredTwice(item: TxItem, d: Outcomes, mutex: bool) {
    && CarrierOk(item) && (mutex || d.mutexCreated) && item.signalData == null && item.doRx
    && d.config == Ok && d.install == Ok && !d.edgesGranted
  }

  /** Every item is answered by exactly one acknowledgement or error, but for one path that gives both. */
  lemma ItemAnswered(item: TxItem, edges: seq<Edge>, d: Outcomes, mutex: bool)
    ensures Completions(Reported(item, edges, d, mutex)) == if AnsweredTwice(item, d, mutex) then 2 else 1
  {
    var r := Reported(item, edges, d, mutex);
    hide WriteRefused, Transmission, Cut, CaptureSetup, CarrierAccepted;
    if |r| == 1 {
      assert r == [r[0]];
      CompletionsOfTwo(r[0], r[0]);
    } else {
      assert r == [r[0], r[1]];
      CompletionsOfTwo(r[0], r[1]);
    }
  }

  lemma CompletionsOfTwo(e: Event, f: Event)
    ensures Completions([e]) == if Completes(e) then 1 else 0
    ensures Completions([e, f]) == (if Completes(e) then 1 else 0) + (if Completes(f) then 1 else 0)
  {
    assert [e, f][..1] == [e] && [e][..0] == [];
  }

  /** The capture task answers every item exactly once. */
  lemma CaptureAnswered(item: RxItem, d: RxOutcomes, isrReady: bool)
    ensures Completions(ReportedCapture(item, d, isrReady)) == 1
  {
    var r := ReportedCapture(item, d, isrReady);
    hide Cut;
    if |r| == 1 {
      assert r == [r[0]];
      CompletionsOfTwo(r[0], r[0]);
    } else {
      assert r == [r[0], r[1]];
      CompletionsOfTwo(r[0], r[1]);
    }
  }

  lemma {:induction false} CompletionsConcat(a: seq<Event>, b: seq<Event>)
    ensures Completions(a + b) == Completions(a) + Completions(b)
  {
    if b == [] {
      assert a + b == a;
    } else {
      assert (a + b)[..|a + b| - 1] == a + b[..|b| - 1];
      CompletionsConcat(a, b[..|b| - 1]);
    }
  }

  function TwiceAnswered(items: seq<TxItem>, ds: seq<Outcomes>, mutex: bool): nat
    requires |items| == |ds|
  {
    var n := |items| - 1;
    if items == [] then 0
    else
      TwiceAnswered(items[..n], ds[..n], mutex)
      + if AnsweredTwice(items[n], ds[n], MutexAfterAll(items[..n], ds[..n], mutex)) then 1 else 0
  }

  /** Over a whole run the answers are as many as the items and the items answered twice. */
  lemma {:induction false} RunAnswered(items: seq<TxItem>, signals: seq<seq<Edge>>, ds: seq<Outcomes>, mutex: bool)
    requires |items| == |signals| == |ds|
    ensures Completions(ReportedAll(items, signals, ds, mutex)) == |items| + TwiceAnswered(items, ds, mutex)
  {
    if items != [] {
      hide Reported, AnsweredTwice;
      var n := |items| - 1;
      RunAnswered(items[..n], signals[..n], ds[..n], mutex);
      var m := MutexAfterAll(items[..n], ds[..n], mutex);
      ItemAnswered(items[n], signals[n], ds[n], m);
      CompletionsConcat(
        ReportedAll(items[..n], signals[..n], ds[..n], mutex), Reported(items[n], signals[n], ds[n], m));
    }
  }

  /** An item with a signal is acknowledged exactly when every call for it succeeds and the driver takes every
      write; then its edges were played as many times as it asks, with its gaps between. A refused write is
      reported, and the driver was asked for no more than up to it. Otherwise nothing was played. */
  lemma {:induction false} ItemIsPlayed(item: TxItem, edges: seq<Edge>, d: Outcomes, mutex: bool, ops: seq<Op>)
    requires Played(item, edges, d, mutex, ops) && forall i :: 0 <= i < |edges| ==> EdgeAccepted(edges[i])
    ensures item.signalData != null && Ack(item.cmdId) in Reported(item, edges, d, mutex) ==>
              && PlaysTimes(ops, edges, item.repeatCount, item.repeatGapUs)
              && (forall k: nat :: k < |ops| && ops[k].Write? ==> d.writeTaken(k))
    ensures item.signalData == null || Ack(item.cmdId) !in Reported(item, edges, d, mutex) ==>
              || ops == []
              || (&& Reported(item, edges, d, mutex) == [Error(item.cmdId, DRIVER)]
                  && ops[|ops| - 1].Write? && !d.writeTaken(|ops| - 1)
                  && (forall k: nat :: k < |ops| - 1 && ops[k].Write? ==> d.writeTaken(k))
                  && exists all :: ops <= all && PlaysTimes(all, edges, item.repeatCount, item.repeatGapUs))
    ensures item.signalData != null ==>
              (Ack(item.cmdId) in Reported(item, edges, d, mutex) <==>
                 Plays(item, d, mutex)
                 && !(ops != [] && ops[|ops| - 1].Write? && !d.writeTaken(|ops| - 1)))
  {
    hide PlaysTimes, Transmission, CaptureSetup, CarrierAccepted, Cut;
    TransmissionPlays(edges, item.repeatCount, item.repeatGapUs);
    if Plays(item, d, mutex) {
      var all := Transmission(edges, item.repeatCount, item.repeatGapUs);
      var failed :| Attempt(ops, all, d.writeTaken, 0, failed);
      AttemptFails(ops, all, d.writeTaken, failed);
      AttemptMeans(ops, all, d.writeTaken, failed);
      hide Attempt, WriteRefused;
    } else {
      hide WriteRefused;
    }
  }

  lemma AttemptMeans(ops: seq<Op>, all: seq<Op>, ok: nat -> bool, failed: bool)
    requires Attempt(ops, all, ok, 0, failed)
    ensures failed ==> ops <= all && ops != [] && ops[|ops| - 1].Write? && !ok(|ops| - 1)
    ensures failed ==> forall k: nat :: k < |ops| - 1 && ops[k].Write? ==> ok(k)
    ensures !failed ==> ops == all && forall k: nat :: k < |ops| && ops[k].Write? ==> ok(k)
  {
    forall k: nat | k < |ops| && ops[k].Write? && !(failed && k == |ops| - 1) ensures ok(k) {
      assert ok(0 + k);
    }
    assert failed ==> !ok(0 + |ops| - 1);
  }

  /** The same over a run: the operations of the whole run are those of its items, one after the other. */
  lemma {:induction false} RunIsPlayed(items: seq<TxItem>, signals: seq<seq<Edge>>, ds: seq<Outcomes>, mutex: bool,
                                       parts: seq<seq<Op>>, i: nat)
    requires PlayedAll(items, signals, ds, mutex, parts) && i < |items|
    requires forall k :: 0 <= k < |signals[i]| ==> EdgeAccepted(signals[i][k])
    requires items[i].signalData != null
    requires Ack(items[i].cmdId) in Reported(items[i], signals[i], ds[i], MutexAfterAll(items[..i], ds[..i], mutex))
    ensures PlaysTimes(parts[i], signals[i], items[i].repeatCount, items[i].repeatGapUs)
  {
    hide PlaysTimes, Reported, MutexAfterAll, Played;
    ItemIsPlayed(items[i], signals[i], ds[i], MutexAfterAll(items[..i], ds[..i], mutex), parts[i]);
  }

  /** Which error an item is answered with. */
  lemma {:induction false} ErrorTells(item: TxItem, edges: seq<Edge>, d: Outcomes, mutex: bool)
    ensures var r := Reported(item, edges, d, mutex);
            var ready := CarrierOk(item) && (mutex || d.mutexCreated);
            var calls := item.signalData != null || item.doRx;
      && (Error(item.cmdId, INVALID_ARG) in r <==> !CarrierOk(item))
      && (Error(item.cmdId, UNSUPPORTED) in r <==> ready && calls && d.config == Ok && d.install == NotSupported)
      && (Error(item.cmdId, NO_MEM) in r <==>
            && ready && calls && d.config == Ok && d.install == Ok
            && if item.signalData == null then !d.edgesGranted
               else (item.doRx && !d.edgesGranted)
                    || (item.doRx && CaptureSetup(d) == NoMem)
                    || ((item.doRx ==> CaptureSetup(d) == Ok) && !d.chunkGranted))
      && (Error(item.cmdId, DRIVER) in r <==>
            && ready && calls
            && (|| (d.config != Ok && d.config != NotFound)
                || (d.config == Ok && d.install == Ok && item.doRx && item.signalData != null
                    && CaptureSetup(d) != Ok && CaptureSetup(d) != NoMem)
                || (Plays(item, d, mutex)
                    && WriteRefused(Transmission(edges, item.repeatCount, item.repeatGapUs), d.writeTaken))))
  {
    hide WriteRefused, Transmission, Cut, CarrierAccepted;
  }

  /** What a capture brings: of an exchange the first edges that the interrupt recorded, as many as there is
      room for. */
  lemma {:induction false} ExchangeCaptures(item: TxItem, edges: seq<Edge>, d: Outcomes, mutex: bool)
    requires item.doRx && item.signalData != null && Ack(item.cmdId) in Reported(item, edges, d, mutex)
    ensures var n := if |d.interrupts| < item.rxMaxEdges then |d.interrupts| else item.rxMaxEdges;
            Reported(item, edges, d, mutex) ==
              (if d.payloadGranted then [Captured(item.cmdId, item.gpio, d.interrupts[..n])] else [])
              + [Ack(item.cmdId)]
  {
    hide WriteRefused, Transmission, CaptureSetup, CarrierAccepted;
    assert d.interrupts[..|d.interrupts|] == d.interrupts;
  }

  /** What `ProcessItem` reports for lack of resources is exactly a mutex that cannot be created or a driver
      call that said so; a channel is always found, because the items before have given theirs back. */
  lemma ReservationNeverFails(item: TxItem, edges: seq<Edge>, d: Outcomes, mutex: bool)
    ensures Error(item.cmdId, RESOURCE_EXHAUSTED) in Reported(item, edges, d, mutex) <==>
      && CarrierOk(item)
      && (|| (!mutex && !d.mutexCreated)
          || ((item.signalData != null || item.doRx)
              && (d.config == NotFound || (d.config == Ok && d.install != Ok && d.install != NotSupported))))
  {
    hide WriteRefused, Transmission, Cut, CaptureSetup, CarrierAccepted;
  }

  /** A reception that ends after 2^32 us of uptime captures nothing, whatever is received; one that ends
      before captures what is received until then. */
  lemma LateReceptionIsEmpty(item: TxItem, d: Outcomes)
    requires d.config == Ok && d.install == Ok && d.edgesGranted && d.payloadGranted && item.rxTotalUs < U32
    requires forall k :: 0 <= k < |d.polls| ==> d.rxStart <= d.polls[k].now
    ensures var end := d.rxStart + item.rxTotalUs;
            var edges := if end < U32 then Cut(Seen(JoinedBatches(Delivered(d.polls, end))), item.rxMaxEdges) else [];
            ReportedReceived(item, d) == [Captured(item.cmdId, item.gpio, edges), Ack(item.cmdId)]
  {
    WindowDelivers(d.polls, d.rxStart, item.rxTotalUs);
    assert Cut(Seen(JoinedBatches([])), item.rxMaxEdges) == [];
  }

  lemma CaptureNeedsMemory(d: Outcomes)
    ensures CaptureSetup(d) == Ok ==> d.edgesGranted
  {
  }

  /** The edges in an item's signal bytes. */
  ghost function SignalOf(item: TxItem): seq<Edge>
    reads item.signalData
  {
    if item.signalData == null || item.signalData.Length % 5 != 0 then [] else EdgesIn(item.signalData[..])
  }

  lemma AttemptFails(ops: seq<Op>, all: seq<Op>, ok: nat -> bool, failed: bool)
    requires Attempt(ops, all, ok, 0, failed)
    ensures failed <==> WriteRefused(all, ok)
  {
    if failed {
      assert all[|ops| - 1] == ops[|ops| - 1] && !ok(0 + |ops| - 1);
    } else {
      forall k: nat | k < |all| && all[k].Write? ensures ok(k) {
        assert ops[k].Write? && ok(0 + k);
      }
    }
  }
}
