/** What the dispatcher's tables guarantee over whole runs (src/command_dispatcher.c). */
module Delivery {
  import opened Board
  import opened PendingTable
  import opened Dispatcher

  function RunAll(cmds: seq<Command>): Tables {
    if cmds == [] then Tables([], []) else Step(RunAll(cmds[..|cmds| - 1]), cmds[|cmds| - 1])
  }

  /** The tables just before command `j` of a run. */
  function At(cmds: seq<Command>, j: nat): Tables
    requires j <= |cmds|
  {
    RunAll(cmds[..j])
  }

  predicate ExecutesAt(cmds: seq<Command>, j: nat)
    requires j < |cmds|
  {
    Executes(At(cmds, j), cmds[j])
  }

  /** Command `m` is executed and its ACK finds room in the table. */
  predicate StoresAck(cmds: seq<Command>, m: nat)
    requires m < |cmds|
  {
    && cmds[m].Passthrough? && ExecutesAt(cmds, m) && cmds[m].correlationId != 0
    && |At(cmds, m).acks| < MAX_PENDING
  }

  /** Command `m` is executed and its result finds room in the table and on the heap. */
  predicate StoresResult(cmds: seq<Command>, m: nat)
    requires m < |cmds|
  {
    && cmds[m].Passthrough? && ExecutesAt(cmds, m) && cmds[m].correlationId != 0
    && cmds[m].responseMalloc && cmds[m].copyMalloc && |At(cmds, m).results| < MAX_PENDING
  }

  predicate IsSyn(c: Command, id: nat, stage: nat) {
    c.Syn? && c.correlationId == id && c.stage == stage
  }

  /** The host confirms an id in a stage after command `m` and before command `j`. */
  ghost predicate Confirmed(cmds: seq<Command>, id: nat, stage: nat, m: nat, j: nat)
    requires j <= |cmds|
  {
    exists k :: m < k < j && IsSyn(cmds[k], id, stage)
  }

  // ---- The tables as runs of table operations ----------------------------------------------------------

  function AckOps(cmds: seq<Command>): seq<Op<AckBody>> {
    if cmds == [] then []
    else
      var n := |cmds| - 1;
      AckOps(cmds[..n]) + [AckOp(RunAll(cmds[..n]), cmds[n])]
  }

  function ResultOps(cmds: seq<Command>): seq<Op<ResultBody>> {
    if cmds == [] then []
    else
      var n := |cmds| - 1;
      ResultOps(cmds[..n]) + [ResultOp(RunAll(cmds[..n]), cmds[n])]
  }

  lemma {:induction false} OpsAt(cmds: seq<Command>, m: nat)
    requires m < |cmds|
    ensures |AckOps(cmds)| == |ResultOps(cmds)| == |cmds|
    ensures AckOps(cmds)[m] == AckOp(At(cmds, m), cmds[m]) && AckOps(cmds)[..m] == AckOps(cmds[..m])
    ensures ResultOps(cmds)[m] == ResultOp(At(cmds, m), cmds[m]) && ResultOps(cmds)[..m] == ResultOps(cmds[..m])
  {
    var n := |cmds| - 1;
    if n > 0 {
      OpsAt(cmds[..n], if m < n then m else n - 1);
    }
    if m < n {
      assert cmds[..n][..m] == cmds[..m];
      assert AckOps(cmds)[..m] == AckOps(cmds[..n])[..m] && ResultOps(cmds)[..m] == ResultOps(cmds[..n])[..m];
    } else {
      assert AckOps(cmds)[..m] == AckOps(cmds[..n]) && ResultOps(cmds)[..m] == ResultOps(cmds[..n]);
    }
  }

  lemma {:induction false} TablesAreRuns(cmds: seq<Command>)
    ensures RunAll(cmds) == Tables(Run(AckOps(cmds)), Run(ResultOps(cmds)))
    ensures |AckOps(cmds)| == |ResultOps(cmds)| == |cmds|
  {
    if cmds != [] {
      var n := |cmds| - 1;
      TablesAreRuns(cmds[..n]);
      OpsAt(cmds, n);
    }
  }

  lemma StoredIsStored(cmds: seq<Command>, m: nat)
    requires m < |cmds| == |AckOps(cmds)| == |ResultOps(cmds)|
    ensures StoredAt(AckOps(cmds), m) <==> StoresAck(cmds, m)
    ensures StoredAt(ResultOps(cmds), m) <==> StoresResult(cmds, m)
  {
    hide IndexOf, PendingTable.Run, RunAll, AckOps, ResultOps;
    OpsAt(cmds, m);
    TablesAreRuns(cmds[..m]);
  }

  lemma {:induction false} LiveIsUnconfirmed(cmds: seq<Command>, m: nat)
    requires m < |cmds| == |AckOps(cmds)| == |ResultOps(cmds)|
    ensures LiveAt(AckOps(cmds), m) <==> StoresAck(cmds, m) && !Confirmed(cmds, cmds[m].correlationId, 0, m, |cmds|)
    ensures LiveAt(ResultOps(cmds), m) <==>
      StoresResult(cmds, m) && !Confirmed(cmds, cmds[m].correlationId, 1, m, |cmds|)
  {
    hide AckOps, ResultOps, RunAll, StoredAt;
    StoredIsStored(cmds, m);
    OpsAt(cmds, m);
    forall k | m < k < |cmds|
      ensures forall id :: AckOps(cmds)[k] == Confirm(id) <==> IsSyn(cmds[k], id, 0)
      ensures forall id :: ResultOps(cmds)[k] == Confirm(id) <==> IsSyn(cmds[k], id, 1)
    {
      OpsAt(cmds, k);
    }
  }

  /** Command `m` stored an ACK (a result) under `id` that the host has not confirmed since. */
  ghost predicate AwaitsAck(cmds: seq<Command>, m: nat, id: nat)
    requires m < |cmds|
  {
    StoresAck(cmds, m) && cmds[m].correlationId == id && !Confirmed(cmds, id, 0, m, |cmds|)
  }

  ghost predicate AwaitsResult(cmds: seq<Command>, m: nat, id: nat)
    requires m < |cmds|
  {
    StoresResult(cmds, m) && cmds[m].correlationId == id && !Confirmed(cmds, id, 1, m, |cmds|)
  }

  /** In every run an id has a pending ACK exactly when some execution stored one that the host has not
      confirmed since; and likewise for results. */
  lemma {:induction false} PendingIffUnconfirmed(cmds: seq<Command>, id: nat)
    ensures Has(RunAll(cmds).acks, id) <==> (exists m :: 0 <= m < |cmds| && AwaitsAck(cmds, m, id))
    ensures Has(RunAll(cmds).results, id) <==> (exists m :: 0 <= m < |cmds| && AwaitsResult(cmds, m, id))
  {
    hide AckOps, ResultOps, RunAll, Has, Confirmed, ExecutesAt;
    TablesAreRuns(cmds);
    HasIffLive(AckOps(cmds), id);
    HasIffLive(ResultOps(cmds), id);
    forall m | 0 <= m < |cmds|
      ensures LiveAt(AckOps(cmds), m) && AckOps(cmds)[m].r.id == id <==> AwaitsAck(cmds, m, id)
      ensures LiveAt(ResultOps(cmds), m) && ResultOps(cmds)[m].r.id == id <==> AwaitsResult(cmds, m, id)
    {
      LiveIsUnconfirmed(cmds, m);
      StoredIds(cmds, m);
    }
  }

  lemma {:induction false} StoredIds(cmds: seq<Command>, m: nat)
    requires m < |cmds| == |AckOps(cmds)| == |ResultOps(cmds)|
    ensures LiveAt(AckOps(cmds), m) || StoresAck(cmds, m) ==>
              cmds[m].Passthrough? && AckOps(cmds)[m] == Put(AckFor(cmds[m]))
    ensures LiveAt(ResultOps(cmds), m) || StoresResult(cmds, m) ==>
              cmds[m].Passthrough? && ResultOps(cmds)[m] == Put(ResultFor(cmds[m]))
  {
    hide AckOps, ResultOps, RunAll;
    OpsAt(cmds, m);
  }

  /** Everything an earlier execution of the same id left in the tables is gone when command `j` comes. */
  ghost predicate AllConfirmed(cmds: seq<Command>, j: nat)
    requires j < |cmds| && cmds[j].Passthrough?
  {
    forall m :: 0 <= m < j && cmds[m].Passthrough? && cmds[m].correlationId == cmds[j].correlationId ==>
      && (StoresAck(cmds, m) ==> Confirmed(cmds, cmds[j].correlationId, 0, m, j))
      && (StoresResult(cmds, m) ==> Confirmed(cmds, cmds[j].correlationId, 1, m, j))
  }

  /** At most once, exactly: over every run, a passthrough with a nonzero correlation id to an online
      device is executed if and only if every record that an execution of the same id stored has been
      confirmed by its own SYN, the ACK in stage 0 and the result in stage 1. */
  lemma ExecutedIffConfirmed(cmds: seq<Command>, j: nat)
    requires j < |cmds| && cmds[j].Passthrough? && cmds[j].correlationId != 0
    requires Online(cmds[j].deviceId, cmds[j].devices)
    ensures ExecutesAt(cmds, j) <==> AllConfirmed(cmds, j)
  {
    hide Has, RunAll, Confirmed;
    var id, before := cmds[j].correlationId, cmds[..j];
    PendingIffUnconfirmed(before, id);
    forall m | 0 <= m < j
      ensures AwaitsAck(before, m, id)
         <==> StoresAck(cmds, m) && cmds[m].correlationId == id && !Confirmed(cmds, id, 0, m, j)
      ensures AwaitsResult(before, m, id)
         <==> StoresResult(cmds, m) && cmds[m].correlationId == id && !Confirmed(cmds, id, 1, m, j)
    {
      assert before[..m] == cmds[..m] && before[m] == cmds[m];
      PrefixConfirmed(cmds, id, m, j);
    }
    assert ExecutesAt(cmds, j) <==> !Has(RunAll(before).acks, id) && !Has(RunAll(before).results, id);
    if ExecutesAt(cmds, j) {
      forall m | 0 <= m < j && cmds[m].Passthrough? && cmds[m].correlationId == id
        ensures StoresAck(cmds, m) ==> Confirmed(cmds, id, 0, m, j)
        ensures StoresResult(cmds, m) ==> Confirmed(cmds, id, 1, m, j)
      {
        assert !AwaitsAck(before, m, id) && !AwaitsResult(before, m, id);
      }
    }
  }

  lemma PrefixConfirmed(cmds: seq<Command>, id: nat, m: nat, j: nat)
    requires j <= |cmds|
    ensures forall stage :: Confirmed(cmds[..j], id, stage, m, j) == Confirmed(cmds, id, stage, m, j)
  {
    assert forall k :: 0 <= k < j ==> cmds[..j][k] == cmds[k];
  }

  /** A second execution of an id means that the first left no record, or that the host confirmed every
      record it left. */
  lemma {:induction false} SecondExecution(cmds: seq<Command>, i: nat, j: nat)
    requires i < j < |cmds| && ExecutesAt(cmds, i) && ExecutesAt(cmds, j)
    requires cmds[i].correlationId == cmds[j].correlationId != 0
    ensures !StoresAck(cmds, i) ==> |At(cmds, i).acks| == MAX_PENDING
    ensures !StoresResult(cmds, i) ==>
      |At(cmds, i).results| == MAX_PENDING || !cmds[i].responseMalloc || !cmds[i].copyMalloc
    ensures StoresAck(cmds, i) ==> Confirmed(cmds, cmds[i].correlationId, 0, i, j)
    ensures StoresResult(cmds, i) ==> Confirmed(cmds, cmds[i].correlationId, 1, i, j)
  {
    hide RunAll, Has, Confirmed;
    ExecutedIffConfirmed(cmds, j);
    TablesBounded(cmds[..i]);
  }

  lemma TablesBounded(cmds: seq<Command>)
    ensures WellFormed(RunAll(cmds).acks) && WellFormed(RunAll(cmds).results)
  {
    hide RunAll, AckOps, ResultOps, PendingTable.Run;
    TablesAreRuns(cmds);
    RunExplained(AckOps(cmds));
    RunExplained(ResultOps(cmds));
  }

  /** Positions in a run that a table's records come from, in order. */
  ghost predicate InOrder(times: seq<nat>, n: nat) {
    && (forall a :: 0 <= a < |times| ==> times[a] < n)
    && (forall a, b :: 0 <= a < b < |times| ==> times[a] < times[b])
  }

  /** In every run both tables hold at most 32 records with distinct nonzero ids, in the order in which
      they were stored, each being exactly the ACK or the result of the execution that stored it, so a
      retry is answered with the original answer. */
  lemma TablesHoldOriginals(cmds: seq<Command>) returns (ackTimes: seq<nat>, resultTimes: seq<nat>)
    ensures WellFormed(RunAll(cmds).acks) && WellFormed(RunAll(cmds).results)
    ensures InOrder(ackTimes, |cmds|) && |ackTimes| == |RunAll(cmds).acks|
    ensures InOrder(resultTimes, |cmds|) && |resultTimes| == |RunAll(cmds).results|
    ensures forall a :: 0 <= a < |ackTimes| ==>
              StoresAck(cmds, ackTimes[a]) && RunAll(cmds).acks[a] == AckFor(cmds[ackTimes[a]])
    ensures forall a :: 0 <= a < |resultTimes| ==>
              StoresResult(cmds, resultTimes[a]) && RunAll(cmds).results[a] == ResultFor(cmds[resultTimes[a]])
  {
    hide RunAll, AckOps, ResultOps, PendingTable.Run, Times, ExecutesAt, Confirmed;
    TablesBounded(cmds);
    TablesAreRuns(cmds);
    var acks, results := AckOps(cmds), ResultOps(cmds);
    RunExplained(acks);
    RunExplained(results);
    ackTimes, resultTimes := Times(acks), Times(results);
    forall a | 0 <= a < |ackTimes|
      ensures StoresAck(cmds, ackTimes[a]) && RunAll(cmds).acks[a] == AckFor(cmds[ackTimes[a]])
    {
      TimesAreLive(acks, ackTimes[a]);
      LiveIsUnconfirmed(cmds, ackTimes[a]);
      StoredIds(cmds, ackTimes[a]);
    }
    forall a | 0 <= a < |resultTimes|
      ensures StoresResult(cmds, resultTimes[a]) && RunAll(cmds).results[a] == ResultFor(cmds[resultTimes[a]])
    {
      TimesAreLive(results, resultTimes[a]);
      LiveIsUnconfirmed(cmds, resultTimes[a]);
      StoredIds(cmds, resultTimes[a]);
    }
  }

  // ---- What is answered -----------------------------------------------------------------------------------

  /** The record that an execution left in a table is found under its id. */
  lemma {:induction false} FoundUnderId<T>(ops: seq<Op<T>>, m: nat)
    requires m < |ops| && LiveAt(ops, m)
    ensures var table, id := Run(ops), ops[m].r.id;
      Has(table, id) && table[IndexOf(table, id)] == ops[m].r
  {
    RunExplained(ops);
    TimesAreLive(ops, m);
    var table, times := Run(ops), Times(ops);
    hide Run, Times, LiveAt, IndexOf;
    var a :| 0 <= a < |times| && times[a] == m;
    assert table[a] == ops[m].r;
    OnlyIndex(table, table[a].id, a);
  }

  lemma {:induction false} AwaitedIsFound(cmds: seq<Command>, m: nat, id: nat)
    requires m < |cmds|
    ensures AwaitsAck(cmds, m, id) ==>
              var acks := RunAll(cmds).acks; Has(acks, id) && acks[IndexOf(acks, id)] == AckFor(cmds[m])
    ensures AwaitsResult(cmds, m, id) ==>
              var results := RunAll(cmds).results;
              Has(results, id) && results[IndexOf(results, id)] == ResultFor(cmds[m])
  {
    hide RunAll, AckOps, ResultOps, PendingTable.Run, Has, IndexOf, LiveAt, Confirmed, StoresAck, StoresResult;
    TablesAreRuns(cmds);
    LiveIsUnconfirmed(cmds, m);
    StoredIds(cmds, m);
    if AwaitsAck(cmds, m, id) {
      FoundUnderId(AckOps(cmds), m);
    }
    if AwaitsResult(cmds, m, id) {
      FoundUnderId(ResultOps(cmds), m);
    }
  }

  /** Some execution stored an ACK (a result) under the id that the host has not confirmed. */
  ghost predicate AckAwaited(cmds: seq<Command>, id: nat) { exists m :: 0 <= m < |cmds| && AwaitsAck(cmds, m, id) }

  ghost predicate ResultAwaited(cmds: seq<Command>, id: nat) {
    exists m :: 0 <= m < |cmds| && AwaitsResult(cmds, m, id)
  }

  /** The ACK part of the answer to a retry: the ACK of the execution that awaits its confirmation, if any. */
  ghost predicate AnswersWithAck(cmds: seq<Command>, id: nat, events: seq<Event>) {
    && (!AckAwaited(cmds, id) ==> events == [])
    && forall m :: 0 <= m < |cmds| && AwaitsAck(cmds, m, id) ==>
         events == [CmdAck(Record(id, AckBody(cmds[m].cmdId, 0, 0)))]
  }

  /** The result part: the device and payload of the execution that awaits it, if memory is found. */
  ghost predicate AnswersWithResult(cmds: seq<Command>, id: nat, malloc: bool, events: seq<Event>) {
    && (!ResultAwaited(cmds, id) || !malloc ==> events == [])
    && forall m :: 0 <= m < |cmds| && AwaitsResult(cmds, m, id) && malloc ==>
         events == [ThreadResponse(Record(id, ResultBody(cmds[m].deviceId, cmds[m].payload)))]
  }

  /** A retry gets the original answer: a passthrough whose id has an unconfirmed record is answered with the
      ACK of the very execution that stored it, if that is unconfirmed, then with the result of the one that
      stored that, and with nothing else. */
  lemma {:induction false} RetryAnswered(cmds: seq<Command>, j: nat, version: nat)
    returns (ack: seq<Event>, result: seq<Event>)
    requires j < |cmds| && cmds[j].Passthrough? && cmds[j].correlationId != 0
    requires AckAwaited(cmds[..j], cmds[j].correlationId) || ResultAwaited(cmds[..j], cmds[j].correlationId)
    ensures Emitted(At(cmds, j), cmds[j], version) == ack + result
    ensures AnswersWithAck(cmds[..j], cmds[j].correlationId, ack)
    ensures AnswersWithResult(cmds[..j], cmds[j].correlationId, cmds[j].resendMalloc, result)
  {
    var before, id, t := cmds[..j], cmds[j].correlationId, At(cmds, j);
    PendingIffUnconfirmed(before, id);
    ack := if Has(t.acks, id) then [CmdAck(t.acks[IndexOf(t.acks, id)])] else [];
    result := if Has(t.results, id) && cmds[j].resendMalloc
              then [ThreadResponse(t.results[IndexOf(t.results, id)])] else [];
    assert Emitted(t, cmds[j], version) == ack + result;
    hide RunAll, Has, IndexOf, AwaitsAck, AwaitsResult, Emitted;
    forall m | 0 <= m < j
      ensures AwaitsAck(before, m, id) ==> ack == [CmdAck(Record(id, AckBody(cmds[m].cmdId, 0, 0)))]
      ensures AwaitsResult(before, m, id) && cmds[j].resendMalloc ==>
                result == [ThreadResponse(Record(id, ResultBody(cmds[m].deviceId, cmds[m].payload)))]
    {
      AwaitedIsFound(before, m, id);
      AwaitsPassthrough(before, m, id);
    }
  }

  lemma AwaitsPassthrough(cmds: seq<Command>, m: nat, id: nat)
    requires m < |cmds|
    ensures AwaitsAck(cmds, m, id) || AwaitsResult(cmds, m, id) ==>
              cmds[m].Passthrough? && cmds[m].correlationId == id
  {
  }

  /** Every other passthrough is answered afresh: with an error if its device is not online, and otherwise with
      its own ACK and, if memory is found, its own result. */
  lemma {:induction false} FirstAnswered(cmds: seq<Command>, j: nat, version: nat)
    requires j < |cmds| && cmds[j].Passthrough?
    requires cmds[j].correlationId != 0 ==>
               !AckAwaited(cmds[..j], cmds[j].correlationId) && !ResultAwaited(cmds[..j], cmds[j].correlationId)
    ensures var c := cmds[j];
            var online := exists i :: 0 <= i < |c.devices| && c.devices[i] == ThreadDevice(c.deviceId, true);
            Emitted(At(cmds, j), c, version) ==
              if !online then [Error(c.cmdId, 6)]
              else [CmdAck(Record(c.correlationId, AckBody(c.cmdId, 0, 0)))]
                   + if c.responseMalloc
                     then [ThreadResponse(Record(c.correlationId, ResultBody(c.deviceId, c.payload)))] else []
  {
    hide RunAll, Has;
    PendingIffUnconfirmed(cmds[..j], cmds[j].correlationId);
  }

  /** Every other command is acknowledged once, under no id, with its own number and no error. */
  lemma OthersAcknowledged(t: Tables, c: Command, version: nat)
    requires !c.Passthrough?
    ensures var events := Emitted(t, c, version);
      && events != [] && events[0] == CmdAck(Record(0, AckBody(c.cmdId, 0, 0)))
      && (!c.SyncRequest? ==> |events| == 1)
      && (c.SyncRequest? ==> events[1..] == Snapshot(t, c, version))
  {
  }

  /** What a run of commands sends. */
  function Answers(cmds: seq<Command>, version: nat): seq<Event> {
    if cmds == [] then []
    else
      var n := |cmds| - 1;
      Answers(cmds[..n], version) + Emitted(RunAll(cmds[..n]), cmds[n], version)
  }

  /** The dispatcher task over a run of commands from boot. */
  method Serve(cmds: seq<Command>, version: nat) returns (d: Dispatcher)
    requires forall i :: 0 <= i < |cmds| && cmds[i].SyncRequest? ==>
               |cmds[i].gpioInUse| == GPIO_COUNT && |cmds[i].uartInUse| == UART_COUNT
    ensures d.Consistent() && d.Current() == RunAll(cmds) && d.sent == Answers(cmds, version)
  {
    d := new Dispatcher(version);
    for i := 0 to |cmds|
      invariant fresh(d) && fresh(d.acks) && fresh(d.results)
      invariant d.Consistent() && d.sessionVersion == version
      invariant d.Current() == RunAll(cmds[..i]) && d.sent == Answers(cmds[..i], version)
    {
      hide Step, Emitted, WellFormed, Owned;
      assert cmds[..i + 1][..i] == cmds[..i];
      d.HandleCommand(cmds[i]);
    }
    assert cmds[..|cmds|] == cmds;
  }

  // ---- The sync snapshot -----------------------------------------------------------------------------------

  datatype Kind = Acks | Results | Ports | Other

  function KindOf(e: Event): Kind {
    match e
    case CmdAck(_) => Acks
    case ThreadResponse(_) => Results
    case PortStatus(_, _) => Ports
    case _ => Other
  }

  function CountKind(events: seq<Event>, kind: Kind): nat {
    if events == [] then 0
    else CountKind(events[..|events| - 1], kind) + (if KindOf(events[|events| - 1]) == kind then 1 else 0)
  }

  lemma {:induction false} CountKindConcat(a: seq<Event>, b: seq<Event>, kind: Kind)
    ensures CountKind(a + b, kind) == CountKind(a, kind) + CountKind(b, kind)
  {
    if b == [] {
      assert a + b == a;
    } else {
      assert (a + b)[..|a + b| - 1] == a + b[..|b| - 1];
      CountKindConcat(a, b[..|b| - 1], kind);
    }
  }

  lemma {:induction false} CountAckEvents(acks: seq<Ack>, kind: Kind)
    ensures CountKind(AckEvents(acks), kind) == if kind == Acks then |acks| else 0
  {
    if acks != [] {
      var n := |acks| - 1;
      CountAckEvents(acks[..n], kind);
      assert AckEvents(acks)[..n] == AckEvents(acks[..n]) by { AckEventsLength(acks[..n]); }
      AckEventsLength(acks);
    }
  }

  lemma {:induction false} AckEventsLength(acks: seq<Ack>)
    ensures |AckEvents(acks)| == |acks|
  {
    if acks != [] {
      AckEventsLength(acks[..|acks| - 1]);
    }
  }

  function SuccessCount(n: nat, malloc: nat -> bool): nat {
    if n == 0 then 0 else SuccessCount(n - 1, malloc) + (if malloc(n - 1) then 1 else 0)
  }

  lemma CountOne(e: Event, kind: Kind)
    ensures CountKind([], kind) == 0 && CountKind([e], kind) == if KindOf(e) == kind then 1 else 0
  {
    assert [e][..0] == [];
  }

  lemma {:induction false} CountResultEvents(results: seq<Result>, malloc: nat -> bool, kind: Kind)
    ensures CountKind(ResultEvents(results, malloc), kind)
      == if kind == Results then SuccessCount(|results|, malloc) else 0
  {
    if results != [] {
      var n := |results| - 1;
      CountResultEvents(results[..n], malloc, kind);
      var last := if malloc(n) then [ThreadResponse(results[n])] else [];
      CountKindConcat(ResultEvents(results[..n], malloc), last, kind);
      CountOne(ThreadResponse(results[n]), kind);
      hide CountKind;
    }
  }

  lemma {:induction false} CountPortEvents(inUse: seq<bool>, resourceType: nat, kind: Kind)
    ensures kind != Other ==>
              CountKind(PortEvents(inUse, resourceType), kind) == if kind == Ports then InUseCount(inUse) else 0
  {
    if inUse != [] {
      var n := |inUse| - 1;
      CountPortEvents(inUse[..n], resourceType, kind);
      var full := if resourceType == 0 then GpioStatus(n) else UartStatus(n);
      var last := if inUse[n] then [PortStatus(resourceType, n), full] else [];
      CountKindConcat(PortEvents(inUse[..n], resourceType), last, kind);
      if inUse[n] {
        assert last[..1] == [PortStatus(resourceType, n)] && last[..1][..0] == [];
        assert CountKind(last[..1], kind) == if kind == Ports then 1 else 0;
      }
    }
  }

  /** The snapshot announces exactly the number of pending ACKs and of port statuses that follow; of the
      announced results those arrive for which memory is found. */
  lemma SnapshotAnnouncesWhatFollows(t: Tables, c: Command, sessionVersion: nat)
    requires c.SyncRequest?
    ensures var s := Snapshot(t, c, sessionVersion);
      && s != [] && s[0].SyncResponse?
      && s[0].pendingCmdCount == CountKind(s, Acks)
      && s[0].portStatusCount == CountKind(s, Ports)
      && s[0].pendingThreadCount == |t.results|
      && CountKind(s, Results) == SuccessCount(|t.results|, c.malloc)
  {
    var s := Snapshot(t, c, sessionVersion);
    var head, a, r := [s[0]], AckEvents(t.acks), ResultEvents(t.results, c.malloc);
    var g, u := PortEvents(c.gpioInUse, 0), PortEvents(c.uartInUse, 1);
    forall kind | kind != Other
      ensures CountKind(s, kind) == CountKind(a, kind) + CountKind(r, kind) + CountKind(g, kind) + CountKind(u, kind)
    {
      assert head[..0] == [] && [BleStatus][..0] == [];
      assert CountKind(head, kind) == 0 && CountKind([BleStatus], kind) == 0;
      CountKindConcat(head, a, kind);
      CountKindConcat(head + a, r, kind);
      CountKindConcat(head + a + r, g, kind);
      CountKindConcat(head + a + r + g, u, kind);
      CountKindConcat(head + a + r + g + u, [BleStatus], kind);
    }
    CountAckEvents(t.acks, Acks);
    CountAckEvents(t.acks, Results);
    CountAckEvents(t.acks, Ports);
    CountResultEvents(t.results, c.malloc, Acks);
    CountResultEvents(t.results, c.malloc, Results);
    CountResultEvents(t.results, c.malloc, Ports);
    CountPortEvents(c.gpioInUse, 0, Acks);
    CountPortEvents(c.gpioInUse, 0, Results);
    CountPortEvents(c.gpioInUse, 0, Ports);
    CountPortEvents(c.uartInUse, 1, Acks);
    CountPortEvents(c.uartInUse, 1, Results);
    CountPortEvents(c.uartInUse, 1, Ports);
  }

  lemma {:induction false} AckEventsHold(acks: seq<Ack>, e: Event)
    ensures |AckEvents(acks)| == |acks|
    ensures forall a :: 0 <= a < |acks| ==> AckEvents(acks)[a] == CmdAck(acks[a])
    ensures e in AckEvents(acks) <==> e.CmdAck? && e.ack in acks
  {
    if acks != [] {
      AckEventsHold(acks[..|acks| - 1], e);
      assert acks == acks[..|acks| - 1] + [acks[|acks| - 1]];
    }
  }

  lemma {:induction false} ResultEventsHold(results: seq<Result>, malloc: nat -> bool, e: Event)
    ensures e in ResultEvents(results, malloc) <==>
              exists k :: 0 <= k < |results| && malloc(k) && e == ThreadResponse(results[k])
  {
    if results != [] {
      var n := |results| - 1;
      ResultEventsHold(results[..n], malloc, e);
      if k :| 0 <= k < n && malloc(k) && e == ThreadResponse(results[..n][k]) {
        assert e == ThreadResponse(results[k]);
      }
      if k :| 0 <= k < |results| && malloc(k) && e == ThreadResponse(results[k]) {
        assert k < n ==> e == ThreadResponse(results[..n][k]);
      }
    }
  }

  lemma {:induction false} PortEventsHold(inUse: seq<bool>, resourceType: nat, e: Event)
    ensures e in PortEvents(inUse, resourceType) <==>
              exists n :: 0 <= n < |inUse| && inUse[n]
                && (e == PortStatus(resourceType, n) || e == if resourceType == 0 then GpioStatus(n) else UartStatus(n))
  {
    if inUse != [] {
      var last := |inUse| - 1;
      PortEventsHold(inUse[..last], resourceType, e);
      if n :| 0 <= n < last && inUse[..last][n]
              && (e == PortStatus(resourceType, n) || e == if resourceType == 0 then GpioStatus(n) else UartStatus(n)) {
        assert inUse[n];
      }
      if n :| 0 <= n < |inUse| && inUse[n]
              && (e == PortStatus(resourceType, n) || e == if resourceType == 0 then GpioStatus(n) else UartStatus(n)) {
        assert n < last ==> inUse[..last][n];
      }
    }
  }

  /** In every run a snapshot brings exactly the unconfirmed ACKs, of the unconfirmed results those for which
      memory is found, and two events for each port in use. */
  lemma {:induction false} SnapshotIsComplete(cmds: seq<Command>, c: Command, version: nat, e: Event)
    requires c.SyncRequest?
    ensures var s := Snapshot(RunAll(cmds), c, version);
      && (e.CmdAck? ==>
            (e in s <==> exists m :: 0 <= m < |cmds| && AwaitsAck(cmds, m, e.ack.id)
                           && e == CmdAck(Record(cmds[m].correlationId, AckBody(cmds[m].cmdId, 0, 0)))))
      && (e.ThreadResponse? && (forall k :: c.malloc(k)) ==>
            (e in s <==> exists m :: 0 <= m < |cmds| && AwaitsResult(cmds, m, e.result.id)
                           && e.result == Record(cmds[m].correlationId, ResultBody(cmds[m].deviceId, cmds[m].payload))))
      && (e.PortStatus? ==>
            (e in s <==>
              (|| (e.resourceType == 0 && e.id < |c.gpioInUse| && c.gpioInUse[e.id])
               || (e.resourceType == 1 && e.id < |c.uartInUse| && c.uartInUse[e.id]))))
      && (e.GpioStatus? ==> (e in s <==> e.gpio < |c.gpioInUse| && c.gpioInUse[e.gpio]))
      && (e.UartStatus? ==> (e in s <==> e.uartId < |c.uartInUse| && c.uartInUse[e.uartId]))
  {
    var t := RunAll(cmds);
    AckEventsHold(t.acks, e);
    ResultEventsHold(t.results, c.malloc, e);
    PortEventsHold(c.gpioInUse, 0, e);
    PortEventsHold(c.uartInUse, 1, e);
    hide RunAll, AckEvents, ResultEvents, PortEvents, AwaitsAck, AwaitsResult, InUseCount;
    if e.CmdAck? {
      AcksAwait(cmds, e.ack);
    } else if e.ThreadResponse? {
      ResultsAwait(cmds, e.result);
    }
  }

  lemma {:induction false} AcksAwait(cmds: seq<Command>, r: Ack)
    ensures r in RunAll(cmds).acks <==>
              exists m :: 0 <= m < |cmds| && AwaitsAck(cmds, m, r.id)
                && r == Record(cmds[m].correlationId, AckBody(cmds[m].cmdId, 0, 0))
  {
    hide RunAll, AwaitsAck, AwaitsResult, IndexOf;
    PendingIffUnconfirmed(cmds, r.id);
    TablesBounded(cmds);
    var acks := RunAll(cmds).acks;
    if a :| 0 <= a < |acks| && acks[a] == r {
      OnlyIndex(acks, r.id, a);
      var m :| 0 <= m < |cmds| && AwaitsAck(cmds, m, r.id);
      AwaitedIsFound(cmds, m, r.id);
      AwaitsPassthrough(cmds, m, r.id);
    }
    forall m | 0 <= m < |cmds| && AwaitsAck(cmds, m, r.id) ensures cmds[m].Passthrough? {
      AwaitsPassthrough(cmds, m, r.id);
    }
    if m :| 0 <= m < |cmds| && AwaitsAck(cmds, m, r.id) && cmds[m].Passthrough?
            && r == Record(cmds[m].correlationId, AckBody(cmds[m].cmdId, 0, 0)) {
      AwaitedIsFound(cmds, m, r.id);
      AwaitsPassthrough(cmds, m, r.id);
    }
  }

  lemma {:induction false} ResultsAwait(cmds: seq<Command>, r: Result)
    ensures r in RunAll(cmds).results <==>
              exists m :: 0 <= m < |cmds| && AwaitsResult(cmds, m, r.id)
                && r == Record(cmds[m].correlationId, ResultBody(cmds[m].deviceId, cmds[m].payload))
  {
    hide RunAll, AwaitsAck, AwaitsResult, IndexOf;
    PendingIffUnconfirmed(cmds, r.id);
    TablesBounded(cmds);
    var results := RunAll(cmds).results;
    if a :| 0 <= a < |results| && results[a] == r {
      OnlyIndex(results, r.id, a);
      var m :| 0 <= m < |cmds| && AwaitsResult(cmds, m, r.id);
      AwaitedIsFound(cmds, m, r.id);
      AwaitsPassthrough(cmds, m, r.id);
    }
    forall m | 0 <= m < |cmds| && AwaitsResult(cmds, m, r.id) ensures cmds[m].Passthrough? {
      AwaitsPassthrough(cmds, m, r.id);
    }
    if m :| 0 <= m < |cmds| && AwaitsResult(cmds, m, r.id) && cmds[m].Passthrough?
            && r == Record(cmds[m].correlationId, ResultBody(cmds[m].deviceId, cmds[m].payload)) {
      AwaitedIsFound(cmds, m, r.id);
      AwaitsPassthrough(cmds, m, r.id);
    }
  }
}
