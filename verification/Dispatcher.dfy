/** Reliable delivery in the command dispatcher (src/command_dispatcher.c): pending ACKs and Thread
    results, resending on a retried passthrough, confirmation by SYN, and the sync snapshot. */
module Dispatcher {
  import opened Board
  import opened Wire
  import opened PendingTable
  import opened Sequences

  const ERR_NOT_FOUND := 6

  datatype AckBody = AckBody(cmdId: nat, status: nat, errorCode: nat)
  datatype ResultBody = ResultBody(deviceId: nat, payload: seq<byte>)

  type Ack = Record<AckBody>
  type Result = Record<ResultBody>

  datatype Event =
    | CmdAck(ack: Ack)
    | Error(cmdId: nat, errorCode: nat)
    | ThreadResponse(result: Result)
    | SyncResponse(cmdId: nat, sessionVersion: nat, pendingCmdCount: nat, pendingThreadCount: nat, portStatusCount: nat)
    | PortStatus(resourceType: nat, id: nat)
    | GpioStatus(gpio: nat)
    | UartStatus(uartId: nat)
    | BleStatus

  datatype ThreadDevice = ThreadDevice(deviceId: nat, online: bool)

  /** A command, with what the heap and the Thread network answer while it is handled. */
  datatype Command =
    | Passthrough(cmdId: nat, deviceId: nat, correlationId: nat, payload: seq<byte>, devices: seq<ThreadDevice>,
                  resendMalloc: bool, responseMalloc: bool, copyMalloc: bool)
    | Syn(cmdId: nat, correlationId: nat, stage: nat)
    | SyncRequest(cmdId: nat, gpioInUse: seq<bool>, uartInUse: seq<bool>, malloc: nat -> bool)
    | Ping(cmdId: nat)

  datatype Tables = Tables(acks: seq<Ack>, results: seq<Result>)

  // ---- What a command does --------------------------------------------------------------------------

  predicate Online(deviceId: nat, devices: seq<ThreadDevice>) {
    exists i :: 0 <= i < |devices| && devices[i] == ThreadDevice(deviceId, true)
  }

  predicate Known(t: Tables, correlationId: nat) {
    correlationId != 0 && (Has(t.acks, correlationId) || Has(t.results, correlationId))
  }

  /** The command reaches the Thread device. */
  predicate Executes(t: Tables, c: Command) {
    c.Passthrough? && !Known(t, c.correlationId) && Online(c.deviceId, c.devices)
  }

  function AckFor(c: Command): Ack
    requires c.Passthrough?
  {
    Record(c.correlationId, AckBody(c.cmdId, 0, 0))
  }

  function ResultFor(c: Command): Result
    requires c.Passthrough?
  {
    Record(c.correlationId, ResultBody(c.deviceId, c.payload))
  }

  /** What a command asks of the ACK table, and of the result table. */
  function AckOp(t: Tables, c: Command): Op<AckBody> {
    if Executes(t, c) then Put(AckFor(c))
    else if c.Syn? && c.stage == 0 then Confirm(c.correlationId)
    else Keep
  }

  function ResultOp(t: Tables, c: Command): Op<ResultBody> {
    if Executes(t, c) && c.responseMalloc && c.copyMalloc then Put(ResultFor(c))
    else if c.Syn? && c.stage == 1 then Confirm(c.correlationId)
    else Keep
  }

  function Step(t: Tables, c: Command): Tables {
    Tables(Apply(t.acks, AckOp(t, c)), Apply(t.results, ResultOp(t, c)))
  }

  /** The records resent to a host that retries. */
  function Resent(t: Tables, correlationId: nat, malloc: bool): seq<Event> {
    (if Has(t.acks, correlationId) then [CmdAck(t.acks[IndexOf(t.acks, correlationId)])] else [])
    + (if Has(t.results, correlationId) && malloc
       then [ThreadResponse(t.results[IndexOf(t.results, correlationId)])] else [])
  }

  function AckEvents(acks: seq<Ack>): seq<Event> {
    if acks == [] then [] else AckEvents(acks[..|acks| - 1]) + [CmdAck(acks[|acks| - 1])]
  }

  function ResultEvents(results: seq<Result>, malloc: nat -> bool): seq<Event> {
    if results == [] then []
    else
      var n := |results| - 1;
      ResultEvents(results[..n], malloc) + (if malloc(n) then [ThreadResponse(results[n])] else [])
  }

  /** Two events for every port in use: a short status and the full one. */
  function PortEvents(inUse: seq<bool>, resourceType: nat): seq<Event> {
    if inUse == [] then []
    else
      var n := |inUse| - 1;
      PortEvents(inUse[..n], resourceType)
      + (if inUse[n]
         then [PortStatus(resourceType, n), if resourceType == 0 then GpioStatus(n) else UartStatus(n)] else [])
  }

  function InUseCount(inUse: seq<bool>): nat {
    if inUse == [] then 0 else InUseCount(inUse[..|inUse| - 1]) + (if inUse[|inUse| - 1] then 1 else 0)
  }

  function Snapshot(t: Tables, c: Command, sessionVersion: nat): seq<Event>
    requires c.SyncRequest?
  {
    [SyncResponse(c.cmdId, sessionVersion, |t.acks|, |t.results|, InUseCount(c.gpioInUse) + InUseCount(c.uartInUse))]
    + AckEvents(t.acks) + ResultEvents(t.results, c.malloc)
    + PortEvents(c.gpioInUse, 0) + PortEvents(c.uartInUse, 1) + [BleStatus]
  }

  function PlainAck(cmdId: nat): Event { CmdAck(Record(0, AckBody(cmdId, 0, 0))) }

  function Emitted(t: Tables, c: Command, sessionVersion: nat): seq<Event> {
    match c
    case Passthrough(_, _, _, _, _, _, _, _) =>
      if Known(t, c.correlationId) then Resent(t, c.correlationId, c.resendMalloc)
      else if !Online(c.deviceId, c.devices) then [Error(c.cmdId, ERR_NOT_FOUND)]
      else [CmdAck(AckFor(c))] + (if c.responseMalloc then [ThreadResponse(ResultFor(c))] else [])
    case SyncRequest(_, _, _, _) => [PlainAck(c.cmdId)] + Snapshot(t, c, sessionVersion)
    case _ => [PlainAck(c.cmdId)]
  }

  // ---- The dispatcher's static state -------------------------------------------------------------------

  /** pending_thread_result_t: the payload is a block of the heap. */
  datatype ResultEntry = ResultEntry(deviceId: nat, correlationId: nat, block: nat)

  /** The live heap blocks are exactly the payloads of the result table, each held by one entry. */
  ghost predicate Owned(entries: seq<ResultEntry>, heap: map<nat, seq<byte>>, nextBlock: nat) {
    && (forall i :: 0 <= i < |entries| ==> entries[i].block in heap && entries[i].block < nextBlock)
    && (forall i, j :: 0 <= i < j < |entries| ==> entries[i].block != entries[j].block)
    && (forall b :: b in heap ==> exists i :: 0 <= i < |entries| && entries[i].block == b)
  }

  /** The records that the entries and their heap blocks stand for. */
  ghost function Contents(entries: seq<ResultEntry>, heap: map<nat, seq<byte>>): (r: seq<Result>)
    requires forall i :: 0 <= i < |entries| ==> entries[i].block in heap
    ensures |r| == |entries|
  {
    seq(|entries|, i requires 0 <= i < |entries| =>
      Record(entries[i].correlationId, ResultBody(entries[i].deviceId, heap[entries[i].block])))
  }

  class Dispatcher {
    const acks: array<Ack>
    var ackCount: nat
    const results: array<ResultEntry>
    var resultCount: nat
    var heap: map<nat, seq<byte>>
    var nextBlock: nat
    var sessionVersion: nat
    var sent: seq<Event>

    ghost predicate Valid()
      reads this, acks, results
    {
      && acks.Length == results.Length == MAX_PENDING
      && ackCount <= MAX_PENDING && resultCount <= MAX_PENDING
      && Owned(results[..resultCount], heap, nextBlock)
    }

    ghost function Acks(): seq<Ack>
      requires Valid()
      reads this, acks, results
    {
      acks[..ackCount]
    }

    ghost function Results(): seq<Result>
      requires Valid()
      reads this, acks, results
    {
      Contents(results[..resultCount], heap)
    }

    constructor (sessionVersion: nat)
      ensures Valid() && Acks() == [] && Results() == [] && sent == [] && this.sessionVersion == sessionVersion
      ensures fresh(acks) && fresh(results)
    {
      acks := new Ack[MAX_PENDING](_ => Record(0, AckBody(0, 0, 0)));
      results := new ResultEntry[MAX_PENDING](_ => ResultEntry(0, 0, 0));
      ackCount, resultCount, heap, nextBlock, sent := 0, 0, map[], 0, [];
      this.sessionVersion := sessionVersion;
    }

    method StorePendingAck(r: Ack)
      requires Valid()
      modifies this`ackCount, acks
      ensures Valid() && Acks() == Store(old(Acks()), r)
      ensures Results() == old(Results())
    {
      if r.id == 0 || ackCount >= MAX_PENDING {
        return;
      }
      for i := 0 to ackCount
        invariant forall j :: 0 <= j < i ==> acks[j].id != r.id
      {
        if acks[i].id == r.id {
          FirstIndex(Acks(), r.id, i);
          return;
        }
      }
      Absent(Acks(), r.id);
      acks[ackCount] := r;
      ackCount := ackCount + 1;
    }

    method ClearPendingAck(correlationId: nat)
      requires Valid()
      modifies this`ackCount, acks
      ensures Valid() && Acks() == Delete(old(Acks()), correlationId)
      ensures Results() == old(Results())
    {
      if correlationId == 0 {
        return;
      }
      for i := 0 to ackCount
        invariant ackCount == old(ackCount) && acks[..] == old(acks[..])
        invariant forall j :: 0 <= j < i ==> acks[j].id != correlationId
      {
        if acks[i].id == correlationId {
          FirstIndex(Acks(), correlationId, i);
          ShiftDown(acks, i, ackCount);
          ackCount := ackCount - 1;
          return;
        }
      }
      Absent(Acks(), correlationId);
    }

    method Free(block: nat)
      requires block in heap
      modifies this`heap
      ensures heap == old(heap) - {block}
    {
      heap := heap - {block};
    }

    method StorePendingResult(deviceId: nat, correlationId: nat, payload: seq<byte>, malloc: bool)
      requires Valid()
      modifies this`resultCount, this`heap, this`nextBlock, results
      ensures Valid() && Acks() == old(Acks())
      ensures Results() == if malloc then Store(old(Results()), Record(correlationId, ResultBody(deviceId, payload)))
                           else old(Results())
    {
      hide Owned, IndexOf;
      if correlationId == 0 || resultCount >= MAX_PENDING {
        return;
      }
      ghost var entries := results[..resultCount];
      for i := 0 to resultCount
        invariant forall j :: 0 <= j < i ==> entries[j].correlationId != correlationId
      {
        if results[i].correlationId == correlationId {
          FirstIndex(Results(), correlationId, i);
          return;
        }
      }
      Absent(Results(), correlationId);
      if !malloc {
        return;
      }
      var entry := ResultEntry(deviceId, correlationId, nextBlock);
      OwnedStore(entries, heap, nextBlock, entry, payload);
      heap := heap[nextBlock := payload];
      results[resultCount] := entry;
      nextBlock := nextBlock + 1;
      resultCount := resultCount + 1;
      assert results[..resultCount] == entries + [entry];
    }

    method ClearPendingResult(correlationId: nat)
      requires Valid()
      modifies this`resultCount, this`heap, results
      ensures Valid() && Acks() == old(Acks())
      ensures Results() == Delete(old(Results()), correlationId)
    {
      hide Owned, IndexOf, RemoveAt;
      if correlationId == 0 {
        return;
      }
      ghost var entries := results[..resultCount];
      for i := 0 to resultCount
        invariant resultCount == old(resultCount) && heap == old(heap) && results[..] == old(results[..])
        invariant forall j :: 0 <= j < i ==> entries[j].correlationId != correlationId
      {
        assert results[i] == entries[i];
        if results[i].correlationId == correlationId {
          FirstIndex(Results(), correlationId, i);
          OwnedFree(entries, heap, nextBlock, i);
          Free(results[i].block);
          ShiftDown(results, i, resultCount);
          resultCount := resultCount - 1;
          return;
        }
      }
      Absent(Results(), correlationId);
    }

    ghost function Current(): Tables
      requires Valid()
      reads this, acks, results
    {
      Tables(Acks(), Results())
    }

    /** Between commands the tables are also well formed. */
    ghost predicate Consistent()
      reads this, acks, results
    {
      Valid() && WellFormed(Acks()) && WellFormed(Results())
    }

    method Send(e: Event)
      modifies this`sent
      ensures sent == old(sent) + [e]
    {
      sent := sent + [e];
    }

    method ResendPending(correlationId: nat, malloc: bool) returns (resent: bool)
      requires Consistent()
      modifies this`sent
      ensures resent == Known(Current(), correlationId)
      ensures sent == old(sent) + if resent then Resent(Current(), correlationId, malloc) else []
    {
      hide IndexOf, WellFormed, Owned;
      resent := false;
      if correlationId == 0 {
        return;
      }
      var i := 0;
      while i < ackCount && acks[i].id != correlationId
        invariant i <= ackCount
        invariant forall j :: 0 <= j < i ==> acks[j].id != correlationId
      {
        i := i + 1;
      }
      if i < ackCount {
        FirstIndex(Acks(), correlationId, i);
        Send(CmdAck(acks[i]));
        resent := true;
      } else {
        Absent(Acks(), correlationId);
      }
      ghost var before, table, entries := sent, Results(), results[..resultCount];
      OwnedInHeap(entries, heap, nextBlock);
      ghost var found := false;
      for k := 0 to resultCount
        invariant found ==> Has(table, correlationId) && IndexOf(table, correlationId) < k
        invariant !found ==> forall j :: 0 <= j < k ==> table[j].id != correlationId
        invariant resent == (Has(Acks(), correlationId) || found)
        invariant sent == before
          + if found && malloc then [ThreadResponse(table[IndexOf(table, correlationId)])] else []
      {
        if results[k].correlationId == correlationId {
          if found {
            OnlyIndex(table, correlationId, k);
            assert false;
          }
          FirstIndex(table, correlationId, k);
          assert results[k] == entries[k];
          if malloc {
            var body := ResultBody(results[k].deviceId, heap[results[k].block]);
            Send(ThreadResponse(Record(results[k].correlationId, body)));
          }
          resent := true;
          found := true;
        }
      }
      if !found {
        Absent(table, correlationId);
      }
    }

    /** The sync snapshot: the announcement, then the tables, then every port in use. */
    method SendSnapshot(cmdId: nat, gpioInUse: seq<bool>, uartInUse: seq<bool>, malloc: nat -> bool)
      requires Valid() && |gpioInUse| == GPIO_COUNT && |uartInUse| == UART_COUNT
      modifies this`sent
      ensures sent == old(sent) + Snapshot(Current(), SyncRequest(cmdId, gpioInUse, uartInUse, malloc), sessionVersion)
    {
      hide Owned, AckEvents, ResultEvents, PortEvents, InUseCount;
      OwnedInHeap(results[..resultCount], heap, nextBlock);
      ghost var acksNow, resultsNow := Acks(), Results();
      var gpioPorts := CountPorts(gpioInUse);
      var uartPorts := CountPorts(uartInUse);
      ghost var start := sent;
      ghost var head := [SyncResponse(cmdId, sessionVersion, ackCount, resultCount, gpioPorts + uartPorts)];
      Send(SyncResponse(cmdId, sessionVersion, ackCount, resultCount, gpioPorts + uartPorts));
      SendAcks();
      SendResults(malloc);
      SendPorts(gpioInUse, 0);
      SendPorts(uartInUse, 1);
      Send(BleStatus);
      SnapshotInParts(start, head, AckEvents(acksNow), ResultEvents(resultsNow, malloc),
                      PortEvents(gpioInUse, 0), PortEvents(uartInUse, 1));
    }

    method SendAcks()
      requires Valid()
      modifies this`sent
      ensures sent == old(sent) + AckEvents(Acks())
    {
      for i := 0 to ackCount
        invariant sent == old(sent) + AckEvents(Acks()[..i])
      {
        assert Acks()[..i + 1][..i] == Acks()[..i];
        Send(CmdAck(acks[i]));
      }
      assert Acks()[..ackCount] == Acks();
    }

    method SendResults(malloc: nat -> bool)
      requires Valid()
      modifies this`sent
      ensures sent == old(sent) + ResultEvents(Results(), malloc)
    {
      hide Owned;
      OwnedInHeap(results[..resultCount], heap, nextBlock);
      for i := 0 to resultCount
        invariant sent == old(sent) + ResultEvents(Results()[..i], malloc)
      {
        assert Results()[..i + 1][..i] == Results()[..i];
        if !malloc(i) {
          continue;
        }
        assert results[i] == results[..resultCount][i];
        Send(ThreadResponse(Record(results[i].correlationId, ResultBody(results[i].deviceId, heap[results[i].block]))));
      }
      assert Results()[..resultCount] == Results();
    }

    method SendPorts(inUse: seq<bool>, resourceType: nat)
      modifies this`sent
      ensures sent == old(sent) + PortEvents(inUse, resourceType)
    {
      for i := 0 to |inUse|
        invariant sent == old(sent) + PortEvents(inUse[..i], resourceType)
      {
        assert inUse[..i + 1][..i] == inUse[..i];
        if inUse[i] {
          Send(PortStatus(resourceType, i));
          Send(if resourceType == 0 then GpioStatus(i) else UartStatus(i));
        }
      }
      assert inUse[..|inUse|] == inUse;
    }

    method SendCmdAck(r: Ack)
      requires Valid()
      modifies this`sent, this`ackCount, acks
      ensures Valid() && sent == old(sent) + [CmdAck(r)]
      ensures Acks() == Store(old(Acks()), r) && Results() == old(Results())
    {
      Send(CmdAck(r));
      if r.id != 0 {
        StorePendingAck(r);
      }
    }

    /** CMD_THREAD_PASSTHROUGH. */
    method HandlePassthrough(c: Command)
      requires Consistent() && c.Passthrough?
      modifies this`sent, this`ackCount, this`resultCount, this`heap, this`nextBlock, acks, results
      ensures Consistent()
      ensures Current() == Step(old(Current()), c)
      ensures sent == old(sent) + Emitted(old(Current()), c, sessionVersion)
    {
      hide Owned, IndexOf, WellFormed, Store, Delete, Resent, Online;
      ghost var t := Current();
      ApplyWellFormed(t.acks, AckOp(t, c));
      ApplyWellFormed(t.results, ResultOp(t, c));
      if c.correlationId != 0 {
        var resent := ResendPending(c.correlationId, c.resendMalloc);
        if resent {
          return;
        }
      }
      var found := FindOnline(c.deviceId, c.devices);
      if !found {
        Send(Error(c.cmdId, ERR_NOT_FOUND));
        return;
      }
      SendCmdAck(Record(c.correlationId, AckBody(c.cmdId, 0, 0)));
      if c.responseMalloc {
        Send(ThreadResponse(Record(c.correlationId, ResultBody(c.deviceId, c.payload))));
        StorePendingResult(c.deviceId, c.correlationId, c.payload, c.copyMalloc);
      }
    }

    /** CMD_SYN: stage 0 confirms the acknowledgement, stage 1 the result. */
    method HandleSyn(c: Command)
      requires Consistent() && c.Syn?
      modifies this`sent, this`ackCount, this`resultCount, this`heap, acks, results
      ensures Consistent()
      ensures Current() == Step(old(Current()), c)
      ensures sent == old(sent) + Emitted(old(Current()), c, sessionVersion)
    {
      hide Owned, IndexOf, WellFormed, Store, Delete;
      ghost var t := Current();
      ApplyWellFormed(t.acks, AckOp(t, c));
      ApplyWellFormed(t.results, ResultOp(t, c));
      if c.stage == 0 {
        ClearPendingAck(c.correlationId);
      } else if c.stage == 1 {
        ClearPendingResult(c.correlationId);
      }
      ZeroIsNotStored(Acks(), AckBody(c.cmdId, 0, 0));
      SendCmdAck(Record(0, AckBody(c.cmdId, 0, 0)));
    }

    /** One command of the dispatcher task. */
    method HandleCommand(c: Command)
      requires Consistent()
      requires c.SyncRequest? ==> |c.gpioInUse| == GPIO_COUNT && |c.uartInUse| == UART_COUNT
      modifies this`sent, this`ackCount, this`resultCount, this`heap, this`nextBlock, acks, results
      ensures Consistent()
      ensures Current() == Step(old(Current()), c)
      ensures sent == old(sent) + Emitted(old(Current()), c, sessionVersion)
    {
      hide Owned, WellFormed, Store, Snapshot;
      match c {
        case Passthrough(_, _, _, _, _, _, _, _) =>
          HandlePassthrough(c);
        case Syn(_, _, _) =>
          HandleSyn(c);
        case SyncRequest(cmdId, gpioInUse, uartInUse, malloc) =>
          ZeroIsNotStored(Acks(), AckBody(cmdId, 0, 0));
          SendCmdAck(Record(0, AckBody(cmdId, 0, 0)));
          SendSnapshot(cmdId, gpioInUse, uartInUse, malloc);
        case Ping(cmdId) =>
          ZeroIsNotStored(Acks(), AckBody(cmdId, 0, 0));
          SendCmdAck(Record(0, AckBody(cmdId, 0, 0)));
      }
    }
  }

  lemma SnapshotInParts(start: seq<Event>, a: seq<Event>, b: seq<Event>, c: seq<Event>, d: seq<Event>, e: seq<Event>)
    ensures start + a + b + c + d + e + [BleStatus] == start + (a + b + c + d + e + [BleStatus])
  {
  }

  method CountPorts(inUse: seq<bool>) returns (n: nat)
    ensures n == InUseCount(inUse)
  {
    n := 0;
    for i := 0 to |inUse|
      invariant n == InUseCount(inUse[..i])
    {
      assert inUse[..i + 1][..i] == inUse[..i];
      if inUse[i] {
        n := n + 1;
      }
    }
    assert inUse[..|inUse|] == inUse;
  }

  method FindOnline(deviceId: nat, devices: seq<ThreadDevice>) returns (found: bool)
    ensures found == Online(deviceId, devices)
  {
    found := false;
    for i := 0 to |devices|
      invariant forall j :: 0 <= j < i ==> devices[j] != ThreadDevice(deviceId, true)
    {
      if devices[i].deviceId == deviceId && devices[i].online {
        assert devices[i] == ThreadDevice(deviceId, true);
        return true;
      }
    }
  }

  lemma ZeroIsNotStored<T>(table: seq<Record<T>>, body: T)
    ensures Store(table, Record(0, body)) == table
  {
  }


  lemma OwnedInHeap(entries: seq<ResultEntry>, heap: map<nat, seq<byte>>, nextBlock: nat)
    requires Owned(entries, heap, nextBlock)
    ensures forall i :: 0 <= i < |entries| ==> entries[i].block in heap
  {
  }

  lemma OwnedStore(
    entries: seq<ResultEntry>, heap: map<nat, seq<byte>>, nextBlock: nat, e: ResultEntry, payload: seq<byte>)
    requires Owned(entries, heap, nextBlock) && e.block == nextBlock
    ensures forall i :: 0 <= i < |entries| ==> entries[i].block in heap
    ensures Owned(entries + [e], heap[nextBlock := payload], nextBlock + 1)
    ensures forall i :: 0 <= i <= |entries| ==> (entries + [e])[i].block in heap[nextBlock := payload]
    ensures Contents(entries + [e], heap[nextBlock := payload])
         == Contents(entries, heap) + [Record(e.correlationId, ResultBody(e.deviceId, payload))]
  {
    var more, bigger := entries + [e], heap[nextBlock := payload];
    forall b | b in bigger ensures exists i :: 0 <= i < |more| && more[i].block == b {
      if b == nextBlock {
        assert more[|entries|].block == b;
      } else {
        var i :| 0 <= i < |entries| && entries[i].block == b;
        assert more[i].block == b;
      }
    }
  }

  /** Deleting an entry and freeing its block leaves the others, with their payloads. */
  lemma {:induction false} OwnedFree(entries: seq<ResultEntry>, heap: map<nat, seq<byte>>, nextBlock: nat, i: nat)
    requires Owned(entries, heap, nextBlock) && i < |entries|
    ensures forall k :: 0 <= k < |entries| ==> entries[k].block in heap
    ensures var rest, smaller := RemoveAt(entries, i), heap - {entries[i].block};
      && Owned(rest, smaller, nextBlock)
      && (forall k :: 0 <= k < |rest| ==> rest[k].block in smaller)
      && Contents(rest, smaller) == RemoveAt(Contents(entries, heap), i)
  {
    hide RemoveAt;
    RemoveAtElements(entries, i);
    RemoveAtElements(Contents(entries, heap), i);
    var rest, smaller := RemoveAt(entries, i), heap - {entries[i].block};
    forall b | b in smaller ensures exists k :: 0 <= k < |rest| && rest[k].block == b {
      var k :| 0 <= k < |entries| && entries[k].block == b;
      assert rest[if k < i then k else k - 1].block == b;
    }
  }

  lemma FirstIndex<T>(table: seq<Record<T>>, id: nat, i: nat)
    requires i < |table| && table[i].id == id && forall j :: 0 <= j < i ==> table[j].id != id
    ensures IndexOf(table, id) == i && Has(table, id)
  {
    var k := IndexOf(table, id);
    assert k < |table| ==> table[k].id == id;
  }

  lemma OnlyIndex<T>(table: seq<Record<T>>, id: nat, k: nat)
    requires WellFormed(table) && k < |table| && table[k].id == id
    ensures IndexOf(table, id) == k
  {
  }

  lemma Absent<T>(table: seq<Record<T>>, id: nat)
    requires forall j :: 0 <= j < |table| ==> table[j].id != id
    ensures !Has(table, id)
  {
  }

  /** The shift loop of both deletions. */
  method ShiftDown<T>(a: array<T>, i: nat, n: nat)
    requires i < n <= a.Length
    modifies a
    ensures a[..n - 1] == RemoveAt(old(a[..n]), i)
    ensures forall k :: n <= k < a.Length ==> a[k] == old(a[k])
  {
    for j := i to n - 1
      invariant forall k :: 0 <= k < i ==> a[k] == old(a[k])
      invariant forall k :: i <= k < j ==> a[k] == old(a[k + 1])
      invariant forall k :: j <= k < a.Length ==> a[k] == old(a[k])
    {
      a[j] := a[j + 1];
    }
  }
}
