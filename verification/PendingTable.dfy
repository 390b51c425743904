/** The tables of records that await confirmation by the host (src/command_dispatcher.c), as values. */
module PendingTable {
  import opened Sequences

  const MAX_PENDING := 32

  /** A record filed under a correlation id. */
  datatype Record<T> = Record(id: nat, body: T)

  /** The position of the record with an id, or the length of the table. */
  function IndexOf<T>(table: seq<Record<T>>, id: nat): (i: nat)
    ensures i <= |table| && (i < |table| ==> table[i].id == id)
    ensures forall j :: 0 <= j < i ==> table[j].id != id
  {
    if table == [] || table[0].id == id then 0 else 1 + IndexOf(table[1..], id)
  }

  predicate Has<T>(table: seq<Record<T>>, id: nat) {
    IndexOf(table, id) < |table|
  }

  /** A record is stored under a nonzero id that is not in the table, while there is room. */
  predicate Accepts<T>(table: seq<Record<T>>, id: nat) {
    id != 0 && |table| < MAX_PENDING && !Has(table, id)
  }

  function Store<T>(table: seq<Record<T>>, r: Record<T>): seq<Record<T>> {
    if Accepts(table, r.id) then table + [r] else table
  }

  function Delete<T>(table: seq<Record<T>>, id: nat): seq<Record<T>> {
    if id != 0 && Has(table, id) then RemoveAt(table, IndexOf(table, id)) else table
  }

  /** Ids are nonzero and distinct, and the table is within its bound. */
  ghost predicate WellFormed<T>(table: seq<Record<T>>) {
    && |table| <= MAX_PENDING
    && (forall i :: 0 <= i < |table| ==> table[i].id != 0)
    && (forall i, j :: 0 <= i < j < |table| ==> table[i].id != table[j].id)
  }

  // ---- Runs ------------------------------------------------------------------------------------------

  /** What a command does to a table. */
  datatype Op<T> = Put(r: Record<T>) | Confirm(id: nat) | Keep

  function Apply<T>(table: seq<Record<T>>, op: Op<T>): seq<Record<T>> {
    match op
    case Put(r) => Store(table, r)
    case Confirm(id) => Delete(table, id)
    case Keep => table
  }

  function Run<T>(ops: seq<Op<T>>): seq<Record<T>> {
    if ops == [] then [] else Apply(Run(ops[..|ops| - 1]), ops[|ops| - 1])
  }

  /** Operation `m` of a run stored its record. */
  predicate StoredAt<T>(ops: seq<Op<T>>, m: nat)
    requires m < |ops|
  {
    ops[m].Put? && Accepts(Run(ops[..m]), ops[m].r.id)
  }

  /** ... and it has not been confirmed since. */
  ghost predicate LiveAt<T>(ops: seq<Op<T>>, m: nat)
    requires m < |ops|
  {
    StoredAt(ops, m) && forall k :: m < k < |ops| ==> ops[k] != Confirm(ops[m].r.id)
  }

  /** The operations whose records make up the table, in table order. */
  ghost function Times<T>(ops: seq<Op<T>>): seq<nat> {
    if ops == [] then []
    else
      var n := |ops| - 1;
      var before, table := Times(ops[..n]), Run(ops[..n]);
      match ops[n]
      case Keep => before
      case Put(r) => if Accepts(table, r.id) then before + [n] else before
      case Confirm(id) =>
        var i := IndexOf(table, id);
        if id != 0 && i < |before| then RemoveAt(before, i) else before
  }

  ghost predicate Explains<T>(ops: seq<Op<T>>, times: seq<nat>, table: seq<Record<T>>) {
    && |times| == |table|
    && (forall a :: 0 <= a < |times| ==> times[a] < |ops| && ops[times[a]] == Put(table[a]))
    && (forall a, b :: 0 <= a < b < |times| ==> times[a] < times[b])
  }

  lemma AcceptedIsNew<T>(table: seq<Record<T>>, id: nat)
    requires Accepts(table, id)
    ensures forall j :: 0 <= j < |table| ==> table[j].id != id
  {
  }

  lemma ApplyWellFormed<T>(table: seq<Record<T>>, op: Op<T>)
    requires WellFormed(table)
    ensures WellFormed(Apply(table, op))
  {
    hide IndexOf, RemoveAt;
    if op.Put? && Accepts(table, op.r.id) {
      AcceptedIsNew(table, op.r.id);
    } else if op.Confirm? && op.id != 0 && Has(table, op.id) {
      RemoveAtElements(table, IndexOf(table, op.id));
    }
  }

  lemma ExplainsRest<T>(before: seq<Op<T>>, op: Op<T>, times: seq<nat>, table: seq<Record<T>>)
    requires Explains(before, times, table)
    ensures Explains(before + [op], times, table)
    ensures forall i :: 0 <= i < |table| ==> Explains(before + [op], RemoveAt(times, i), RemoveAt(table, i))
    ensures op.Put? ==> Explains(before + [op], times + [|before|], table + [op.r])
  {
    hide RemoveAt;
    assert forall m :: 0 <= m < |before| ==> (before + [op])[m] == before[m];
    forall i | 0 <= i < |table| ensures Explains(before + [op], RemoveAt(times, i), RemoveAt(table, i)) {
      RemoveAtElements(times, i);
      RemoveAtElements(table, i);
    }
  }

  /** In every run the table is well formed and consists of records stored by operations of the run, in
      the order in which they were stored. */
  lemma {:induction false} RunExplained<T>(ops: seq<Op<T>>)
    ensures WellFormed(Run(ops))
    ensures Explains(ops, Times(ops), Run(ops))
  {
    if ops != [] {
      hide IndexOf, RemoveAt, Explains, WellFormed;
      var n := |ops| - 1;
      RunExplained(ops[..n]);
      ApplyWellFormed(Run(ops[..n]), ops[n]);
      assert ops == ops[..n] + [ops[n]];
      ExplainsLength(ops[..n], Times(ops[..n]), Run(ops[..n]));
      ExplainsRest(ops[..n], ops[n], Times(ops[..n]), Run(ops[..n]));
    }
  }

  lemma ExplainsLength<T>(ops: seq<Op<T>>, times: seq<nat>, table: seq<Record<T>>)
    requires Explains(ops, times, table)
    ensures |times| == |table|
  {
  }

  /** A record is in the table exactly while it is live: from the operation that stored it until the
      confirmation of its own id. */
  lemma {:induction false} TimesAreLive<T>(ops: seq<Op<T>>, m: nat)
    requires m < |ops|
    ensures m in Times(ops) <==> LiveAt(ops, m)
  {
    var n := |ops| - 1;
    var before := ops[..n];
    RunExplained(before);
    if m < n {
      TimesAreLive(before, m);
      LiveStep(ops, m);
      StepTimes(ops, m);
      hide LiveAt, Times, Run, Explains;
    } else {
      assert ops[..m] == before;
    }
  }

  lemma LiveStep<T>(ops: seq<Op<T>>, m: nat)
    requires m < |ops| - 1
    ensures var n := |ops| - 1;
            LiveAt(ops, m) <==> LiveAt(ops[..n], m) && (ops[m].Put? ==> ops[n] != Confirm(ops[m].r.id))
  {
    var n := |ops| - 1;
    var before := ops[..n];
    hide Run, WellFormed;
    assert before[..m] == ops[..m];
    assert forall k :: m < k < n ==> ops[k] == before[k];
  }

  lemma {:induction false} StepTimes<T>(ops: seq<Op<T>>, m: nat)
    requires ops != [] && m < |ops| - 1
    requires var before := ops[..|ops| - 1];
      && WellFormed(Run(before)) && Explains(before, Times(before), Run(before))
    ensures var before := ops[..|ops| - 1];
            m in Times(ops) <==> m in Times(before) && (ops[m].Put? ==> ops[|ops| - 1] != Confirm(ops[m].r.id))
  {
    hide IndexOf, RemoveAt;
    var n := |ops| - 1;
    var before := ops[..n];
    var times, table := Times(before), Run(before);
    if ops[n].Confirm? && ops[n].id != 0 && Has(table, ops[n].id) {
      ConfirmRemoves(before, times, table, ops[n].id, m);
    } else if ops[n].Confirm? && m in times {
      var a :| 0 <= a < |times| && times[a] == m;
      assert before[m] == Put(table[a]);
    }
  }

  lemma ConfirmRemoves<T>(before: seq<Op<T>>, times: seq<nat>, table: seq<Record<T>>, id: nat, m: nat)
    requires WellFormed(table) && Explains(before, times, table) && Has(table, id) && m < |before|
    ensures m in RemoveAt(times, IndexOf(table, id))
       <==> m in times && (before[m].Put? ==> before[m].r.id != id)
  {
    hide IndexOf, RemoveAt;
    var i := IndexOf(table, id);
    RemoveAtElements(times, i);
    var rest := RemoveAt(times, i);
    if m in times {
      var a :| 0 <= a < |times| && times[a] == m;
      assert before[m] == Put(table[a]);
      if a < i {
        assert rest[a] == m;
      } else if a > i {
        assert rest[a - 1] == m;
      }
    }
    if m in rest {
      var k :| 0 <= k < |rest| && rest[k] == m;
      var a := if k < i then k else k + 1;
      assert times[a] == m && before[m] == Put(table[a]);
    }
  }

  /** The table has a record for an id exactly when some operation stored one that is still live. */
  lemma HasIffLive<T>(ops: seq<Op<T>>, id: nat)
    ensures Has(Run(ops), id) <==> exists m :: 0 <= m < |ops| && LiveAt(ops, m) && ops[m].r.id == id
  {
    RunExplained(ops);
    var table, times := Run(ops), Times(ops);
    if Has(table, id) {
      var m := times[IndexOf(table, id)];
      TimesAreLive(ops, m);
    }
    if m :| 0 <= m < |ops| && LiveAt(ops, m) && ops[m].r.id == id {
      TimesAreLive(ops, m);
      var a :| 0 <= a < |times| && times[a] == m;
      assert table[a].id == id;
    }
  }
}
