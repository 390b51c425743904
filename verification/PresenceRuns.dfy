/** What the presence table and its event stream guarantee over whole runs (src/ble_manager.c). */
module PresenceRuns {
  import opened Board
  import opened Wire
  import opened Presence

  // ---- The set of devices in range ---------------------------------------------------------------------

  predicate IsActive(d: Slot) { d.inUse && d.active }

  ghost function ActiveSet(slots: seq<Slot>): set<Mac> {
    set i | 0 <= i < |slots| && IsActive(slots[i]) :: slots[i].mac
  }

  /** No two occupied slots share an identity, and only occupied slots are active. */
  ghost predicate Distinct(slots: seq<Slot>) {
    && (forall i, j :: 0 <= i < j < |slots| && slots[i].inUse && slots[j].inUse ==> slots[i].mac != slots[j].mac)
    && (forall i :: 0 <= i < |slots| && slots[i].active ==> slots[i].inUse)
  }

  /** The set an observer holds after one more event. */
  ghost function After(home: set<Mac>, e: Event): set<Mac> {
    match e
    case InRange(mac, _) => home + {mac}
    case OutOfRange(mac, _) => home - {mac}
    case Rssi(_, _) => home
  }

  ghost function Track(home: set<Mac>, events: seq<Event>): set<Mac> {
    if events == [] then home else After(Track(home, events[..|events| - 1]), events[|events| - 1])
  }

  ghost predicate Allowed(home: set<Mac>, e: Event) {
    match e
    case InRange(mac, _) => mac !in home
    case OutOfRange(mac, _) => mac in home
    case Rssi(_, _) => true
  }

  /** A device comes into range only when it is out, and leaves only when it is in. */
  ghost predicate Legal(home: set<Mac>, events: seq<Event>) {
    events != [] ==>
      && Legal(home, events[..|events| - 1])
      && Allowed(Track(home, events[..|events| - 1]), events[|events| - 1])
  }

  /** An RSSI event is sent only for a device that is in range at that moment. */
  ghost predicate RssiOnlyInRange(home: set<Mac>, events: seq<Event>) {
    events != [] ==>
      && RssiOnlyInRange(home, events[..|events| - 1])
      && (events[|events| - 1].Rssi? ==> events[|events| - 1].mac in Track(home, events[..|events| - 1]))
  }

  lemma {:induction false} TrackConcat(home: set<Mac>, a: seq<Event>, b: seq<Event>)
    ensures Track(home, a + b) == Track(Track(home, a), b)
    ensures Legal(home, a + b) <==> Legal(home, a) && Legal(Track(home, a), b)
    ensures RssiOnlyInRange(home, a + b) <==> RssiOnlyInRange(home, a) && RssiOnlyInRange(Track(home, a), b)
  {
    if b == [] {
      assert a + b == a;
    } else {
      assert (a + b)[..|a + b| - 1] == a + b[..|b| - 1];
      TrackConcat(home, a, b[..|b| - 1]);
    }
  }

  /** One event. */
  lemma TrackOne(home: set<Mac>, e: Event)
    ensures Track(home, [e]) == After(home, e)
    ensures Legal(home, [e]) <==> Allowed(home, e)
    ensures RssiOnlyInRange(home, [e]) <==> (e.Rssi? ==> e.mac in home)
  {
    assert [e][..0] == [];
  }

  // ---- Each operation agrees with its events --------------------------------------------------------------

  /** The outcome keeps the table in order, and its events lead exactly from the old set to the new. */
  ghost predicate Agrees(slots: seq<Slot>, o: Outcome) {
    && |o.slots| == |slots| && Distinct(o.slots)
    && Legal(ActiveSet(slots), o.events) && Track(ActiveSet(slots), o.events) == ActiveSet(o.slots)
  }

  lemma InSet(slots: seq<Slot>, i: nat)
    requires i < |slots| && Distinct(slots) && slots[i].inUse
    ensures slots[i].mac in ActiveSet(slots) <==> slots[i].active
  {
  }

  /** Changing one slot without changing its occupant. */
  lemma UpdateSlot(slots: seq<Slot>, i: nat, d: Slot)
    requires i < |slots| && Distinct(slots) && slots[i].inUse && d.inUse && d.mac == slots[i].mac
    ensures Distinct(slots[i := d])
    ensures ActiveSet(slots[i := d]) == if d.active then ActiveSet(slots) + {d.mac} else ActiveSet(slots) - {d.mac}
  {
    var t := slots[i := d];
    forall m
      ensures m in ActiveSet(t) <==>
        (if d.active then m in ActiveSet(slots) || m == d.mac else m in ActiveSet(slots) && m != d.mac)
    {
      if m in ActiveSet(slots) && m != d.mac {
        var k :| 0 <= k < |slots| && IsActive(slots[k]) && slots[k].mac == m;
        assert IsActive(t[k]) && t[k].mac == m;
      }
      if m in ActiveSet(t) && m != d.mac {
        var k :| 0 <= k < |t| && IsActive(t[k]) && t[k].mac == m;
        assert IsActive(slots[k]) && slots[k].mac == m;
      }
      if m == d.mac && d.active {
        assert IsActive(t[i]) && t[i].mac == m;
      }
    }
  }

  /** Filling or emptying a slot whose occupant, old or new, is not active. */
  lemma ReplaceSlot(slots: seq<Slot>, i: nat, d: Slot)
    requires i < |slots| && Distinct(slots) && !d.active
    requires d.inUse ==> forall j :: 0 <= j < |slots| && j != i && slots[j].inUse ==> slots[j].mac != d.mac
    ensures Distinct(slots[i := d])
    ensures ActiveSet(slots[i := d])
      == if IsActive(slots[i]) then ActiveSet(slots) - {slots[i].mac} else ActiveSet(slots)
  {
    var t := slots[i := d];
    forall m ensures m in ActiveSet(t) <==> m in ActiveSet(slots) && (IsActive(slots[i]) ==> m != slots[i].mac) {
      if m in ActiveSet(slots) && (IsActive(slots[i]) ==> m != slots[i].mac) {
        var k :| 0 <= k < |slots| && IsActive(slots[k]) && slots[k].mac == m;
        assert IsActive(t[k]) && t[k].mac == m;
      }
      if m in ActiveSet(t) {
        var k :| 0 <= k < |t| && IsActive(t[k]) && t[k].mac == m;
        assert k != i && IsActive(slots[k]) && slots[k].mac == m;
      }
    }
  }

  lemma MarkedAgrees(slots: seq<Slot>, i: nat, rssi: int, handle: nat, now: nat)
    requires Distinct(slots) && (i < |slots| ==> slots[i].inUse)
    ensures Agrees(slots, Marked(slots, i, rssi, handle, now))
    ensures i < |slots| ==> slots[i].mac in ActiveSet(Marked(slots, i, rssi, handle, now).slots)
    ensures RssiOnlyInRange(ActiveSet(slots), Marked(slots, i, rssi, handle, now).events)
  {
    if i < |slots| {
      UpdateSlot(slots, i, Refreshed(slots[i], rssi, handle, now));
      InSet(slots, i);
      TrackOne(ActiveSet(slots), InRange(slots[i].mac, rssi));
    }
  }

  lemma AddedKeeps(slots: seq<Slot>, mac: Mac)
    requires Distinct(slots)
    ensures |Added(slots, mac)| == |slots| && Distinct(Added(slots, mac))
    ensures ActiveSet(Added(slots, mac)) == ActiveSet(slots)
  {
    hide FindMac, FindFree;
    var i := FindFree(slots);
    if FindMac(slots, mac) == |slots| && i < |slots| {
      ReplaceSlot(slots, i, Slot(mac, 0, CONN_HANDLE_NONE, 0, true, false, 0));
    }
  }

  lemma {:induction false} SeededKeeps(slots: seq<Slot>, macs: seq<Mac>)
    requires Distinct(slots)
    ensures var t := Seeded(slots, macs); |t| == |slots| && Distinct(t) && ActiveSet(t) == ActiveSet(slots)
  {
    if macs != [] {
      hide Added, Distinct;
      SeededKeeps(slots, macs[..|macs| - 1]);
      AddedKeeps(Seeded(slots, macs[..|macs| - 1]), macs[|macs| - 1]);
    }
  }

  lemma DetachedKeeps(slots: seq<Slot>, handle: nat)
    requires Distinct(slots)
    ensures var t := Detached(slots, handle); |t| == |slots| && Distinct(t) && ActiveSet(t) == ActiveSet(slots)
  {
    hide FindHandle;
    var i := FindHandle(slots, handle);
    if handle != CONN_HANDLE_NONE && i < |slots| {
      UpdateSlot(slots, i, slots[i].(connHandle := CONN_HANDLE_NONE));
      InSet(slots, i);
    }
  }

  lemma BondDeletedAgrees(slots: seq<Slot>, mac: Mac, deleted: bool)
    requires Distinct(slots)
    ensures Agrees(slots, BondDeleted(slots, mac, deleted))
    ensures RssiOnlyInRange(ActiveSet(slots), BondDeleted(slots, mac, deleted).events)
  {
    hide FindMac;
    var i := FindMac(slots, mac);
    if deleted && i < |slots| {
      ReplaceSlot(slots, i, EMPTY_SLOT);
      InSet(slots, i);
      TrackOne(ActiveSet(slots), OutOfRange(mac, 1));
    }
  }

  lemma {:induction false} ExpiredAgrees(slots: seq<Slot>, now: nat, n: nat)
    requires Distinct(slots) && n <= |slots|
    ensures Agrees(slots, Expired(slots, now, n))
    ensures forall k :: 0 <= k < |slots| ==> Expired(slots, now, n).slots[k].mac == slots[k].mac
    ensures forall k :: n <= k < |slots| ==> Expired(slots, now, n).slots[k] == slots[k]
    ensures forall k :: 0 <= k < n ==> !Stale(Expired(slots, now, n).slots[k], now)
    ensures forall k :: 0 <= k < |slots| ==>
              var d := Expired(slots, now, n).slots[k]; d.active ==> d == slots[k]
    ensures RssiOnlyInRange(ActiveSet(slots), Expired(slots, now, n).events)
  {
    if n > 0 {
      hide Track, Legal, RssiOnlyInRange, ActiveSet;
      ExpiredAgrees(slots, now, n - 1);
      var o, d := Expired(slots, now, n - 1), slots[n - 1];
      if Stale(d, now) {
        var gone := OutOfRange(d.mac, 0);
        UpdateSlot(o.slots, n - 1, d.(active := false, connHandle := CONN_HANDLE_NONE));
        InSet(o.slots, n - 1);
        TrackConcat(ActiveSet(slots), o.events, [gone]);
        TrackOne(ActiveSet(o.slots), gone);
      }
    }
  }

  /** The stack looks a handle up as the identity in the slot. */
  ghost predicate FaithfulLinks(slots: seq<Slot>, links: Links) {
    forall i :: 0 <= i < |slots| && Reachable(slots[i], links) ==> links(slots[i].connHandle).value.0 == slots[i].mac
  }

  /** A refresh followed by the RSSI event it is made for. */
  lemma RefreshAgrees(slots: seq<Slot>, i: nat, peer: Mac, rssi: int, handle: nat, now: nat)
    requires Distinct(slots) && i < |slots| && slots[i].inUse
    ensures var m := Marked(slots, i, rssi, handle, now);
            var o := Outcome(m.slots, m.events + [Rssi(peer, rssi)]);
      Agrees(slots, o) && (peer == slots[i].mac ==> RssiOnlyInRange(ActiveSet(slots), o.events))
  {
    hide Track, Legal, RssiOnlyInRange, ActiveSet, Refreshed;
    var m := Marked(slots, i, rssi, handle, now);
    MarkedAgrees(slots, i, rssi, handle, now);
    TrackConcat(ActiveSet(slots), m.events, [Rssi(peer, rssi)]);
    TrackOne(ActiveSet(m.slots), Rssi(peer, rssi));
  }

  /** One outcome after another. */
  lemma AgreesThen(slots: seq<Slot>, o: Outcome, p: Outcome)
    requires Agrees(slots, o) && Agrees(o.slots, p)
    ensures Agrees(slots, Outcome(p.slots, o.events + p.events))
    ensures RssiOnlyInRange(ActiveSet(slots), o.events) && RssiOnlyInRange(ActiveSet(o.slots), p.events) ==>
              RssiOnlyInRange(ActiveSet(slots), o.events + p.events)
  {
    hide Track, Legal, RssiOnlyInRange, ActiveSet;
    TrackConcat(ActiveSet(slots), o.events, p.events);
  }

  /** Polling keeps who is in which slot and leaves the slots it has not reached. */
  lemma {:induction false} PolledKeeps(slots: seq<Slot>, links: Links, now: nat, n: nat)
    requires n <= |slots|
    ensures var p := Polled(slots, links, now, n);
      && (forall k :: 0 <= k < |slots| ==> p.slots[k].mac == slots[k].mac && p.slots[k].inUse == slots[k].inUse)
      && (forall k :: n <= k < |slots| ==> p.slots[k] == slots[k])
  {
    if n > 0 {
      PolledKeeps(slots, links, now, n - 1);
    }
  }

  lemma {:induction false} PolledAgrees(slots: seq<Slot>, links: Links, now: nat, n: nat)
    requires Distinct(slots) && n <= |slots|
    ensures Agrees(slots, Polled(slots, links, now, n))
    ensures FaithfulLinks(slots, links) ==> RssiOnlyInRange(ActiveSet(slots), Polled(slots, links, now, n).events)
  {
    if n == 0 {
      NoEvents(slots);
    } else {
      hide Agrees, Distinct, RssiOnlyInRange, ActiveSet, Marked;
      PolledAgrees(slots, links, now, n - 1);
      PolledKeeps(slots, links, now, n - 1);
      var o, d := Polled(slots, links, now, n - 1), slots[n - 1];
      if Reachable(d, links) {
        var (peer, rssi) := links(d.connHandle).value;
        assert FaithfulLinks(slots, links) ==> peer == d.mac;
        hide FaithfulLinks, Reachable;
        var m := Marked(o.slots, n - 1, rssi, d.connHandle, now);
        assert Distinct(o.slots) by { AgreesDistinct(slots, o); }
        RefreshAgrees(o.slots, n - 1, peer, rssi, d.connHandle, now);
        AgreesThen(slots, o, Outcome(m.slots, m.events + [Rssi(peer, rssi)]));
        assert o.events + (m.events + [Rssi(peer, rssi)]) == o.events + m.events + [Rssi(peer, rssi)];
      }
    }
  }

  lemma AgreesDistinct(slots: seq<Slot>, o: Outcome)
    requires Agrees(slots, o)
    ensures Distinct(o.slots) && |o.slots| == |slots|
  {
  }

  lemma ScanAgrees(slots: seq<Slot>, mac: Mac, rssi: int, now: nat)
    requires Distinct(slots)
    ensures Agrees(slots, ScanOutcome(slots, mac, rssi, now))
    ensures RssiOnlyInRange(ActiveSet(slots), ScanOutcome(slots, mac, rssi, now).events)
  {
    hide FindMac, Track, Legal, RssiOnlyInRange, ActiveSet, Marked;
    var i := FindMac(slots, mac);
    if i < |slots| {
      RefreshAgrees(slots, i, mac, rssi, CONN_HANDLE_NONE, now);
    } else {
      NoEvents(slots);
    }
  }

  lemma NoEvents(slots: seq<Slot>)
    ensures Legal(ActiveSet(slots), []) && Track(ActiveSet(slots), []) == ActiveSet(slots)
    ensures RssiOnlyInRange(ActiveSet(slots), [])
  {
  }

  lemma PassAgrees(slots: seq<Slot>, lastScan: nat, links: Links, now: nat)
    requires Distinct(slots)
    ensures Agrees(slots, PassOutcome(slots, lastScan, links, now))
    ensures FaithfulLinks(slots, links) ==>
      RssiOnlyInRange(ActiveSet(slots), PassOutcome(slots, lastScan, links, now).events)
  {
    hide Track, Legal, RssiOnlyInRange, ActiveSet;
    NoEvents(slots);
    PolledAgrees(slots, links, now, |slots|);
    var p := if PollDue(lastScan, now) then Polled(slots, links, now, |slots|) else Outcome(slots, []);
    ExpiredAgrees(p.slots, now, |p.slots|);
    TrackConcat(ActiveSet(slots), p.events, Expired(p.slots, now, |p.slots|).events);
  }

  lemma {:induction false} StepAgrees(s: State, step: Step, now: nat)
    requires Distinct(s.slots)
    ensures Agrees(s.slots, OutcomeOf(s, step, now))
    ensures (step.Pass? ==> FaithfulLinks(s.slots, step.links)) ==>
              RssiOnlyInRange(ActiveSet(s.slots), OutcomeOf(s, step, now).events)
  {
    hide Track, Legal, RssiOnlyInRange, ActiveSet, FindMac;
    NoEvents(s.slots);
    match step {
      case Seed(bonded) => SeededKeeps(s.slots, bonded);
      case Advertised(mac, rssi) => ScanAgrees(s.slots, mac, rssi, now);
      case Encrypted(mac, handle, rssi) =>
        AddedKeeps(s.slots, mac);
        var added := Added(s.slots, mac);
        MarkedAgrees(added, FindMac(added, mac), rssi, handle, now);
      case Disconnected(handle) => DetachedKeeps(s.slots, handle);
      case DeleteBond(mac, deleted) => BondDeletedAgrees(s.slots, mac, deleted);
      case StartScan =>
      case Pass(links) => PassAgrees(s.slots, s.lastScan, links, now);
    }
  }

  // ---- Whole runs ------------------------------------------------------------------------------------------

  datatype TimedStep = TimedStep(step: Step, now: nat)

  /** The state and the whole event stream of a run from boot. */
  datatype Trace = Trace(state: State, events: seq<Event>)

  function RunFrom(s: State, run: seq<TimedStep>): Trace {
    if run == [] then Trace(s, [])
    else
      var t := RunFrom(s, run[..|run| - 1]);
      var TimedStep(step, now) := run[|run| - 1];
      var o := OutcomeOf(t.state, step, now);
      Trace(State(o.slots, LastScanAfter(t.state.lastScan, step, now)), t.events + o.events)
  }

  function Boot(): State { State(seq(IN_RANGE_MAX, _ => EMPTY_SLOT), 0) }

  /** Over every run from any state in order, the events lead exactly from the first set of devices in
      range to the last, never announcing a device that is in or withdrawing one that is out. */
  lemma {:induction false} RunAgrees(s: State, run: seq<TimedStep>)
    requires Distinct(s.slots)
    ensures var t := RunFrom(s, run); Agrees(s.slots, Outcome(t.state.slots, t.events))
  {
    hide Track, Legal, RssiOnlyInRange, ActiveSet, OutcomeOf;
    if run == [] {
      NoEvents(s.slots);
    } else {
      var t := RunFrom(s, run[..|run| - 1]);
      RunAgrees(s, run[..|run| - 1]);
      var TimedStep(step, now) := run[|run| - 1];
      StepAgrees(t.state, step, now);
      TrackConcat(ActiveSet(s.slots), t.events, OutcomeOf(t.state, step, now).events);
    }
  }

  /** Over every run from boot in which the stack looks handles up faithfully, RSSI events are sent only
      for devices in range at that moment. */
  lemma {:induction false} RssiImpliesInRange(run: seq<TimedStep>)
    requires forall k :: 0 <= k < |run| && run[k].step.Pass? ==>
               FaithfulLinks(RunFrom(Boot(), run[..k]).state.slots, run[k].step.links)
    ensures RssiOnlyInRange({}, RunFrom(Boot(), run).events)
  {
    hide Track, Legal, ActiveSet, OutcomeOf, FaithfulLinks, Boot;
    if run != [] {
      var init := run[..|run| - 1];
      forall k | 0 <= k < |init| ensures init[..k] == run[..k] {
      }
      RssiImpliesInRange(init);
      BootDistinct();
      RunAgrees(Boot(), init);
      var t := RunFrom(Boot(), init);
      var TimedStep(step, now) := run[|run| - 1];
      assert run[..|run| - 1] == init;
      StepAgrees(t.state, step, now);
      TrackConcat({}, t.events, OutcomeOf(t.state, step, now).events);
    }
  }

  /** The transitions of one device in an event stream: true for into range, false for out of it. */
  function Moves(events: seq<Event>, mac: Mac): seq<bool> {
    if events == [] then []
    else
      var before := Moves(events[..|events| - 1], mac);
      match events[|events| - 1]
      case InRange(m, _) => if m == mac then before + [true] else before
      case OutOfRange(m, _) => if m == mac then before + [false] else before
      case Rssi(_, _) => before
  }

  /** IN, OUT, IN, ... */
  ghost predicate Alternates(moves: seq<bool>) {
    forall i :: 0 <= i < |moves| ==> moves[i] == (i % 2 == 0)
  }

  lemma {:induction false} LegalAlternates(events: seq<Event>, mac: Mac)
    requires Legal({}, events)
    ensures Alternates(Moves(events, mac))
    ensures mac in Track({}, events) <==> |Moves(events, mac)| % 2 == 1
  {
    if events != [] {
      LegalAlternates(events[..|events| - 1], mac);
    }
  }

  lemma BootDistinct()
    ensures Distinct(Boot().slots) && ActiveSet(Boot().slots) == {}
  {
  }

  /** In every run from boot: no two occupied slots share a MAC; for each MAC the events alternate IN,
      OUT, IN, ... starting with IN, across timeouts, bond deletions and slot reuse; and a MAC is active
      exactly when its last event is IN. */
  lemma EventsAlternate(run: seq<TimedStep>, mac: Mac)
    ensures var t := RunFrom(Boot(), run);
            var moves := Moves(t.events, mac);
      && Distinct(t.state.slots)
      && Alternates(moves)
      && (mac in ActiveSet(t.state.slots) <==> moves != [] && moves[|moves| - 1])
  {
    hide Track, Legal, ActiveSet, RunFrom, Moves, Boot;
    BootDistinct();
    RunAgrees(Boot(), run);
    LegalAlternates(RunFrom(Boot(), run).events, mac);
  }

  /** Time does not run backwards and stays within 32 bits. */
  ghost predicate Monotone(run: seq<TimedStep>) {
    && (forall i :: 0 <= i < |run| ==> run[i].now < U32)
    && (forall i, j :: 0 <= i < j < |run| ==> run[i].now <= run[j].now)
  }

  ghost predicate SeenBy(slots: seq<Slot>, now: nat) {
    forall i :: 0 <= i < |slots| && slots[i].active ==> slots[i].lastActive <= now
  }

  lemma StepSeenBy(s: State, step: Step, before: nat, now: nat)
    requires Distinct(s.slots) && SeenBy(s.slots, before) && before <= now
    ensures SeenBy(OutcomeOf(s, step, now).slots, now)
  {
    hide FindMac, FindHandle, FindFree, ActiveSet, Track, Legal, RssiOnlyInRange;
    match step {
      case Seed(bonded) => SeededSeenBy(s.slots, bonded, now);
      case Advertised(mac, rssi) =>
      case Encrypted(mac, handle, rssi) =>
      case Disconnected(handle) =>
      case DeleteBond(mac, deleted) =>
      case StartScan =>
      case Pass(links) =>
        PolledSeenBy(s.slots, links, now, |s.slots|);
        var p := if PollDue(s.lastScan, now) then Polled(s.slots, links, now, |s.slots|) else Outcome(s.slots, []);
        PolledAgrees(s.slots, links, now, |s.slots|);
        ExpiredAgrees(p.slots, now, |p.slots|);
    }
  }

  lemma {:induction false} SeededSeenBy(slots: seq<Slot>, macs: seq<Mac>, now: nat)
    requires SeenBy(slots, now)
    ensures SeenBy(Seeded(slots, macs), now)
  {
    if macs != [] {
      SeededSeenBy(slots, macs[..|macs| - 1], now);
    }
  }

  lemma {:induction false} PolledSeenBy(slots: seq<Slot>, links: Links, now: nat, n: nat)
    requires SeenBy(slots, now) && n <= |slots|
    ensures SeenBy(Polled(slots, links, now, n).slots, now)
  {
    if n > 0 {
      PolledSeenBy(slots, links, now, n - 1);
    }
  }

  lemma {:induction false} RunSeenBy(run: seq<TimedStep>, now: nat)
    requires Monotone(run) && (run != [] ==> run[|run| - 1].now <= now)
    ensures SeenBy(RunFrom(Boot(), run).state.slots, now)
  {
    if run != [] {
      hide OutcomeOf, Boot;
      var init, last := run[..|run| - 1], run[|run| - 1];
      assert init != [] ==> init[|init| - 1] == run[|run| - 2];
      RunSeenBy(init, last.now);
      BootDistinct();
      RunAgrees(Boot(), init);
      StepSeenBy(RunFrom(Boot(), init).state, last.step, last.now, last.now);
    }
  }

  /** A pass leaves no active device that was last seen too long ago. */
  lemma PassLeavesNoneStale(slots: seq<Slot>, lastScan: nat, links: Links, now: nat)
    requires Distinct(slots)
    ensures forall i :: 0 <= i < |slots| ==> !Stale(PassOutcome(slots, lastScan, links, now).slots[i], now)
    ensures |PassOutcome(slots, lastScan, links, now).slots| == |slots|
  {
    hide Stale, Polled, Expired, Track, Legal, ActiveSet, RssiOnlyInRange;
    PolledAgrees(slots, links, now, |slots|);
    var p := if PollDue(lastScan, now) then Polled(slots, links, now, |slots|) else Outcome(slots, []);
    ExpiredAgrees(p.slots, now, |p.slots|);
  }

  /** After every pass of the RSSI task each active device was seen less than ten seconds ago. */
  lemma ActiveAreRecent(run: seq<TimedStep>)
    requires run != [] && run[|run| - 1].step.Pass? && Monotone(run)
    ensures var now, slots := run[|run| - 1].now, RunFrom(Boot(), run).state.slots;
            forall i :: 0 <= i < |slots| && slots[i].active ==>
              slots[i].lastActive <= now && now - slots[i].lastActive < IN_RANGE_TIMEOUT_S
  {
    hide Boot, ActiveSet, Track, Legal, PassOutcome;
    var init, last := run[..|run| - 1], run[|run| - 1];
    var s := RunFrom(Boot(), init).state;
    BootDistinct();
    RunAgrees(Boot(), init);
    RunAgrees(Boot(), run);
    RunSeenBy(run, last.now);
    PassLeavesNoneStale(s.slots, s.lastScan, last.step.links, last.now);
  }
}
