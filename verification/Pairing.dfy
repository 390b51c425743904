/** Pairing sessions (src/ble_manager.c): opened by a command, closed by a command, by a timeout or by a
    disable scheduled once a peer has paired. Every callback and every pass of the RSSI task is one step. */
module Pairing {
  import opened Board

  const HALF_U32 := 0x8000_0000
  /** One second at the 100 Hz tick rate the firmware is configured with. */
  const GRACE_TICKS := 100

  datatype State = State(
    enabled: bool, timeout: nat, start: nat, pending: bool, disableAtTick: nat, connHandle: nat)

  const BOOT := State(false, 0, 0, false, 0, CONN_HANDLE_NONE)

  datatype Event = Enabled(cmdId: nat, timeout: nat) | Disabled(reason: nat)

  datatype Step =
    | Enable(cmdId: nat, timeout: nat)
    | Disable
    | PasskeyAction(handle: nat, display: bool)
    | EncChange(handle: nat, status: int)
    | PairingComplete(status: int)
    | Disconnect(handle: nat)
    | Pass

  /** A step, at true times counted without wrap-around: seconds since boot and scheduler ticks. The
      firmware sees both modulo 2^32. */
  datatype TimedStep = TimedStep(step: Step, now: nat, tick: nat)

  datatype Outcome = Outcome(state: State, events: seq<Event>)

  /** Casting the difference of two u32 tick counts to int32 leaves it non-negative. */
  predicate TickReached(tick: nat, deadline: nat) { (tick - deadline) % U32 < HALF_U32 }

  /** By the wrapped clock at least `timeout` seconds, if that is positive, have gone by since `start`. */
  predicate RanOut(timeout: nat, start: nat, now: nat) { timeout > 0 && (now - start) % U32 >= timeout }

  predicate TimedOut(s: State, now: nat) { RanOut(s.timeout, s.start, now) }

  predicate GraceOver(s: State, tick: nat) { s.pending && TickReached(tick, s.disableAtTick) }

  function Opened(s: State, timeout: nat, now: nat): State {
    State(true, timeout, now % U32, false, s.disableAtTick, CONN_HANDLE_NONE)
  }

  function Closed(s: State): State {
    s.(enabled := false, timeout := 0, pending := false, connHandle := CONN_HANDLE_NONE)
  }

  function Closing(s: State): Outcome { Outcome(Closed(s), [Disabled(if s.enabled then 2 else 0)]) }

  /** The tick, as the counter shows it, at which a disable scheduled at `tick` is due. */
  function Deadline(tick: nat): nat { (tick + GRACE_TICKS) % U32 }

  function Scheduled(s: State, tick: nat): State {
    s.(connHandle := CONN_HANDLE_NONE, pending := true, disableAtTick := Deadline(tick))
  }

  /** A peer has paired in the current session. */
  predicate Schedules(s: State, step: Step) {
    s.enabled && (
      || (step.EncChange? && step.status == 0 && s.connHandle == step.handle)
      || (step.PairingComplete? && step.status == 0))
  }

  predicate PassCloses(s: State, now: nat, tick: nat) {
    GraceOver(s, tick) || (s.enabled && TimedOut(s, now))
  }

  function Next(s: State, t: TimedStep): Outcome {
    if Schedules(s, t.step) then Outcome(Scheduled(s, t.tick), [])
    else match t.step
      case Enable(cmdId, timeout) => Outcome(Opened(s, timeout, t.now), [Enabled(cmdId, timeout)])
      case Disable => Closing(s)
      case PasskeyAction(handle, display) =>
        Outcome(if s.enabled && display then s.(connHandle := handle) else s, [])
      case Disconnect(handle) =>
        Outcome(if s.connHandle == handle then s.(connHandle := CONN_HANDLE_NONE) else s, [])
      case Pass => if PassCloses(s, t.now, t.tick) then Closing(s) else Outcome(s, [])
      case _ => Outcome(s, [])
  }

  class PairingControl {
    var enabled: bool
    var timeout: nat
    var start: nat
    var pending: bool
    var disableAtTick: nat
    var connHandle: nat
    var sent: seq<Event>

    function View(): State
      reads this
    {
      State(enabled, timeout, start, pending, disableAtTick, connHandle)
    }

    constructor ()
      ensures View() == BOOT && sent == []
    {
      enabled, timeout, start, pending, disableAtTick, connHandle := false, 0, 0, false, 0, CONN_HANDLE_NONE;
      sent := [];
    }

    method EnablePairing(cmdId: nat, timeoutS: nat, now: nat, ghost tick: nat)
      modifies this
      ensures var o := Next(old(View()), TimedStep(Enable(cmdId, timeoutS), now, tick));
              View() == o.state && sent == old(sent) + o.events
    {
      pending := false;
      connHandle := CONN_HANDLE_NONE;
      enabled := true;
      timeout := timeoutS;
      start := now % U32;
      sent := sent + [Enabled(cmdId, timeoutS)];
    }

    method DisablePairing()
      modifies this
      ensures View() == Closing(old(View())).state && sent == old(sent) + Closing(old(View())).events
    {
      pending := false;
      connHandle := CONN_HANDLE_NONE;
      var reason := if enabled then 2 else 0;
      enabled := false;
      timeout := 0;
      sent := sent + [Disabled(reason)];
    }

    method ScheduleDisable(tick: nat)
      modifies this`disableAtTick, this`pending
      ensures pending && disableAtTick == Deadline(tick)
    {
      disableAtTick := (tick + GRACE_TICKS) % U32;
      pending := true;
    }

    method OnPasskeyAction(handle: nat, display: bool, ghost now: nat, ghost tick: nat)
      modifies this`connHandle
      ensures var o := Next(old(View()), TimedStep(PasskeyAction(handle, display), now, tick));
              View() == o.state && o.events == []
    {
      if !enabled {
        return;
      }
      if display {
        connHandle := handle;
      }
    }

    method OnEncChange(handle: nat, status: int, tick: nat, ghost now: nat)
      modifies this`connHandle, this`disableAtTick, this`pending
      ensures var o := Next(old(View()), TimedStep(EncChange(handle, status), now, tick));
              View() == o.state && o.events == []
    {
      if status == 0 && enabled && connHandle == handle {
        connHandle := CONN_HANDLE_NONE;
        ScheduleDisable(tick);
      }
    }

    method OnPairingComplete(status: int, tick: nat, ghost now: nat)
      modifies this`connHandle, this`disableAtTick, this`pending
      ensures var o := Next(old(View()), TimedStep(PairingComplete(status), now, tick));
              View() == o.state && o.events == []
    {
      if status == 0 && enabled {
        connHandle := CONN_HANDLE_NONE;
        ScheduleDisable(tick);
      }
    }

    method OnDisconnect(handle: nat, ghost now: nat, ghost tick: nat)
      modifies this`connHandle
      ensures var o := Next(old(View()), TimedStep(Disconnect(handle), now, tick));
              View() == o.state && o.events == []
    {
      if connHandle == handle {
        connHandle := CONN_HANDLE_NONE;
      }
    }

    /** The pairing part of one pass of the RSSI task. */
    method RssiPass(now: nat, tick: nat)
      modifies this
      ensures var o := Next(old(View()), TimedStep(Pass, now, tick));
              View() == o.state && sent == old(sent) + o.events
    {
      if pending && (tick - disableAtTick) % U32 < HALF_U32 {
        DisablePairing();
      }
      if enabled && timeout > 0 {
        var elapsed := (now - start) % U32;
        if elapsed >= timeout {
          DisablePairing();
        }
      }
    }
  }

  // ---- Whole runs ------------------------------------------------------------------------------------------

  function Final(run: seq<TimedStep>): State {
    if run == [] then BOOT else Next(Final(run[..|run| - 1]), run[|run| - 1]).state
  }

  function Sent(run: seq<TimedStep>): seq<Event> {
    if run == [] then []
    else Sent(run[..|run| - 1]) + Next(Final(run[..|run| - 1]), run[|run| - 1]).events
  }

  /** The state after the first `k` steps. */
  function At(run: seq<TimedStep>, k: nat): State
    requires k <= |run|
  {
    Final(run[..k])
  }

  lemma {:induction false} AtPrefix(run: seq<TimedStep>, n: nat, k: nat)
    requires k <= n <= |run|
    ensures At(run[..n], k) == At(run, k) && At(run, n) == Final(run[..n]) && At(run, |run|) == Final(run)
  {
    assert run[..n][..k] == run[..k];
    assert run[..|run|] == run;
  }

  lemma AtNext(run: seq<TimedStep>, k: nat)
    requires k < |run|
    ensures At(run, k + 1) == Next(At(run, k), run[k]).state
  {
    assert run[..k + 1][..k] == run[..k];
  }

  /** Step `i` opened the session that is still open at the end of the run. */
  ghost predicate OpenedBy(run: seq<TimedStep>, i: nat) {
    && i < |run| && run[i].step.Enable?
    && (forall k: nat :: i < k < |run| ==> !run[k].step.Enable?)
    && (forall k: nat :: i < k <= |run| ==> At(run, k).enabled)
  }

  /** Step `j` was the last to schedule a disable. */
  ghost predicate ScheduledBy(run: seq<TimedStep>, j: nat) {
    && j < |run| && Schedules(At(run, j), run[j].step)
    && (forall k: nat :: j < k < |run| ==> !Schedules(At(run, k), run[k].step))
  }

  /** A session open after `n` steps stays open unless it is reopened or closed. */
  lemma {:induction false} OpenedByPrefix(run: seq<TimedStep>, n: nat, i: nat)
    requires i < n <= |run|
    ensures OpenedBy(run, i) ==> OpenedBy(run[..n], i)
    ensures OpenedBy(run[..n], i) && n + 1 == |run| && Final(run).enabled && !run[n].step.Enable? ==> OpenedBy(run, i)
  {
    hide At, Final, Next;
    AtPrefix(run, n, n);
    forall k: nat | k <= n ensures At(run[..n], k) == At(run, k) {
      AtPrefix(run, n, k);
    }
    forall k: nat | k < n ensures run[..n][k] == run[k] {
    }
  }

  lemma {:induction false} ScheduledByGrows(run: seq<TimedStep>, j: nat)
    requires run != [] && ScheduledBy(run[..|run| - 1], j)
    requires !Schedules(Final(run[..|run| - 1]), run[|run| - 1].step)
    ensures ScheduledBy(run, j)
  {
    hide At, Final, Next, Schedules;
    var n := |run| - 1;
    forall k: nat | k <= n ensures At(run[..n], k) == At(run, k) && At(run, n) == Final(run[..n]) {
      AtPrefix(run, n, k);
    }
  }

  /** An open session was opened by an earlier Enable, which fixed its timeout and start, and nothing has
      closed or reopened it since. */
  lemma {:induction false} SessionIsOpen(run: seq<TimedStep>)
    ensures Final(run).enabled <==> exists i: nat :: OpenedBy(run, i)
    ensures forall i: nat :: OpenedBy(run, i) ==>
              Final(run).timeout == run[i].step.timeout && Final(run).start == run[i].now % U32
  {
    if run != [] {
      var n := |run| - 1;
      SessionIsOpen(run[..n]);
      StepKeepsSession(Final(run[..n]), run[n]);
      hide At, Next;
      AtPrefix(run, n, n);
      if Final(run).enabled {
        if run[n].step.Enable? {
          assert OpenedBy(run, n);
        } else {
          var i: nat :| OpenedBy(run[..n], i);
          OpenedByPrefix(run, n, i);
        }
      }
      forall i: nat | OpenedBy(run, i)
        ensures Final(run).timeout == run[i].step.timeout && Final(run).start == run[i].now % U32
      {
        if i < n {
          OpenedByPrefix(run, n, i);
        }
      }
    }
  }

  /** Only an Enable opens a session, and an open session keeps its timeout and start. */
  lemma StepKeepsSession(s: State, t: TimedStep)
    ensures var n := Next(s, t).state;
      && (n.enabled && !t.step.Enable? ==> s.enabled && n.timeout == s.timeout && n.start == s.start)
      && (t.step.Enable? ==> n.enabled && n.timeout == t.step.timeout && n.start == t.now % U32)
  {
    hide TickReached, TimedOut;
  }

  /** A session and its scheduled disable outlive a step that neither opens, closes nor schedules. */
  lemma {:induction false} StillScheduled(run: seq<TimedStep>, n: nat, i: nat, j: nat)
    requires n + 1 == |run| && OpenedBy(run[..n], i) && ScheduledBy(run[..n], j) && i < j
    requires Final(run).enabled && !run[n].step.Enable? && !Schedules(Final(run[..n]), run[n].step)
    ensures OpenedBy(run, i) && ScheduledBy(run, j)
    ensures forall l: nat :: ScheduledBy(run, l) ==> l == j
    ensures j < n && run[..n][j] == run[j]
  {
    hide At, Final, Next, Schedules;
    OpenedByPrefix(run, n, i);
    ScheduledByGrows(run, j);
    forall l: nat | ScheduledBy(run, l) ensures l == j {
      LastIsUnique(run, j, l);
    }
  }

  lemma JustScheduled(run: seq<TimedStep>, n: nat, i: nat)
    requires n + 1 == |run| && OpenedBy(run[..n], i)
    requires Final(run).enabled && !run[n].step.Enable? && Schedules(Final(run[..n]), run[n].step)
    ensures OpenedBy(run, i) && i < n && ScheduledBy(run, n)
    ensures forall l: nat :: ScheduledBy(run, l) ==> l == n
  {
    hide At, Final, Next, Schedules;
    OpenedByPrefix(run, n, i);
    AtPrefix(run, n, n);
    forall l: nat | ScheduledBy(run, l) ensures l == n {
      LastIsUnique(run, n, l);
    }
  }

  /** A disable is pending only while pairing is enabled, and only a disable scheduled in the session
      that is open: no step between the two opened or closed a session. */
  lemma {:induction false} PendingIsOfThisSession(run: seq<TimedStep>)
    ensures Final(run).pending ==> Final(run).enabled
    ensures Final(run).pending ==> exists i: nat, j: nat :: OpenedBy(run, i) && ScheduledBy(run, j) && i < j
    ensures forall j: nat :: ScheduledBy(run, j) && Final(run).pending ==>
              Final(run).disableAtTick == Deadline(run[j].tick)
  {
    assert run == [] ==> !Final(run).pending;
    assert run != [] ==> Final(run) == Next(Final(run[..|run| - 1]), run[|run| - 1]).state;
    hide Final, At, Next, Schedules, OpenedBy, ScheduledBy, Deadline;
    if run != [] {
      var n := |run| - 1;
      PendingIsOfThisSession(run[..n]);
      StepKeepsPending(Final(run[..n]), run[n]);
      if Final(run).pending {
        if Schedules(Final(run[..n]), run[n].step) {
          SessionIsOpen(run[..n]);
          SchedulesEnabled(Final(run[..n]), run[n].step);
          var i: nat :| OpenedBy(run[..n], i);
          JustScheduled(run, n, i);
          assert Final(run).disableAtTick == Deadline(run[n].tick);
        } else {
          var i: nat, j: nat :| OpenedBy(run[..n], i) && ScheduledBy(run[..n], j) && i < j;
          StillScheduled(run, n, i, j);
          assert Final(run[..n]).disableAtTick == Deadline(run[..n][j].tick);
        }
      }
    }
  }

  lemma SchedulesEnabled(s: State, step: Step)
    requires Schedules(s, step)
    ensures s.enabled
  {
  }

  /** After a step that did not schedule a disable, one is pending only if it was before, and then the
      session was neither opened nor closed. */
  lemma StepKeepsPending(s: State, t: TimedStep)
    requires s.pending ==> s.enabled
    ensures var n := Next(s, t).state;
      && (n.pending ==> n.enabled)
      && (Schedules(s, t.step) ==> n.pending && n.disableAtTick == Deadline(t.tick) && !t.step.Enable?)
      && (n.pending && !Schedules(s, t.step) ==> s.pending && !t.step.Enable? && n.disableAtTick == s.disableAtTick)
      && (s.pending && n.enabled && !t.step.Enable? ==> n.pending)
  {
    hide TickReached, TimedOut;
  }

  lemma LastIsUnique(run: seq<TimedStep>, i: nat, j: nat)
    requires ScheduledBy(run, i) && ScheduledBy(run, j)
    ensures i == j
  {
  }

  lemma {:induction false} ModMultiple(x: int, q: nat)
    ensures (x + q * U32) % U32 == x % U32
  {
    if q > 0 {
      ModMultiple(x, q - 1);
      assert x + q * U32 == (x + (q - 1) * U32) + U32;
    }
  }

  /** A u32 counter loses nothing that matters modulo 2^32. */
  lemma WrappedDifference(a: nat, b: int)
    ensures (b - a % U32) % U32 == (b - a) % U32
  {
    var q := a / U32;
    assert b - a % U32 == (b - a) + q * U32;
    ModMultiple(b - a, q);
  }

  lemma TimedOutExact(s: State, start: nat, now: nat)
    requires s.start == start % U32
    ensures TimedOut(s, now) <==> RanOut(s.timeout, start, now)
  {
    WrappedDifference(start, now);
  }

  /** A difference of true times, as the firmware's casts to u32 and to int32 see it. */
  lemma InRange(x: int)
    ensures 0 <= x < U32 ==> x % U32 == x
    ensures -HALF_U32 <= x < HALF_U32 ==> (x % U32 < HALF_U32 <==> x >= 0)
  {
    if x < 0 && -HALF_U32 <= x {
      ModMultiple(x, 1);
    }
  }

  /** Once scheduled in a session, a disable stays pending until the session ends. */
  lemma {:induction false} PendingStays(run: seq<TimedStep>, i: nat, j: nat, k: nat)
    requires OpenedBy(run, i) && i < j && ScheduledBy(run, j) && j < k <= |run|
    ensures At(run, k).pending
  {
    hide At, Next, Final, Schedules;
    PendingIsOfThisSession(run[..k - 1]);
    AtPrefix(run, k - 1, k - 1);
    AtNext(run, k - 1);
    StepKeepsPending(At(run, k - 1), run[k - 1]);
    if k > j + 1 {
      PendingStays(run, i, j, k - 1);
    }
  }

  /** In an open session a disable is pending exactly when one was scheduled in that session. */
  lemma {:induction false} PendingIffScheduled(run: seq<TimedStep>, i: nat)
    requires OpenedBy(run, i)
    ensures Final(run).pending <==> exists j: nat :: i < j && ScheduledBy(run, j)
    ensures forall j: nat :: i < j && ScheduledBy(run, j) ==>
              j < |run| && Final(run).disableAtTick == Deadline(run[j].tick)
  {
    hide At, Final, Next, Schedules;
    AtPrefix(run, |run|, 0);
    PendingIsOfThisSession(run);
    if Final(run).pending {
      var o: nat, j: nat :| OpenedBy(run, o) && ScheduledBy(run, j) && o < j;
      assert o == i;
    }
    forall j: nat | i < j && ScheduledBy(run, j) ensures Final(run).pending {
      PendingStays(run, i, j, |run|);
    }
  }

  lemma PassOutcome(s: State, t: TimedStep)
    requires t.step.Pass? && s.enabled
    ensures var closes := GraceOver(s, t.tick) || TimedOut(s, t.now);
      Next(s, t).state.enabled == !closes && Next(s, t).events == if closes then [Disabled(2)] else []
  {
  }

  lemma FinalSnoc(run: seq<TimedStep>, t: TimedStep)
    ensures Final(run + [t]) == Next(Final(run), t).state
    ensures Sent(run + [t]) == Sent(run) + Next(Final(run), t).events
  {
    assert (run + [t])[..|run|] == run;
  }

  /** A peer paired in the session step `i` opened, and by the firmware's wrapped clock its grace period
      is over. */
  ghost predicate Paired(run: seq<TimedStep>, i: nat, tick: nat) {
    exists j: nat :: i < j && ScheduledBy(run, j) && TickReached(tick, run[j].tick + GRACE_TICKS)
  }

  lemma {:induction false} GraceOverIffPaired(run: seq<TimedStep>, i: nat, tick: nat)
    requires OpenedBy(run, i)
    ensures GraceOver(Final(run), tick) <==> Paired(run, i, tick)
  {
    hide At, Final, Next, OpenedBy, ScheduledBy;
    PendingIffScheduled(run, i);
    forall j: nat | i < j && ScheduledBy(run, j)
      ensures TickReached(tick, Final(run).disableAtTick) <==> TickReached(tick, run[j].tick + GRACE_TICKS)
    {
      WrappedDifference(run[j].tick + GRACE_TICKS, tick);
    }
  }

  /** A pass closes an open session exactly when the grace period of a pairing in this session is over, or
      when the session has a positive timeout and at least that many seconds have gone by since it was
      opened, both by the wrapped clocks; it announces the closing once, and otherwise says nothing. */
  lemma {:induction false} PassClosesExactly(run: seq<TimedStep>, t: TimedStep, i: nat)
    requires t.step.Pass? && OpenedBy(run, i)
    ensures var closes := Paired(run, i, t.tick) || RanOut(run[i].step.timeout, run[i].now, t.now);
      && Final(run + [t]).enabled == !closes
      && Sent(run + [t]) == Sent(run) + if closes then [Disabled(2)] else []
  {
    assert i < |run| && run[i].step.Enable?;
    hide At, Final, Sent, Next, OpenedBy, Paired, GraceOver, TimedOut, RanOut;
    FinalSnoc(run, t);
    SessionIsOpen(run);
    GraceOverIffPaired(run, i, t.tick);
    PassOutcome(Final(run), t);
    TimedOutExact(Final(run), run[i].now, t.now);
  }

  /** A peer paired in the session step `i` opened, at least a grace period before `tick`. */
  ghost predicate PairedBefore(run: seq<TimedStep>, i: nat, tick: nat) {
    exists j: nat :: i < j && ScheduledBy(run, j) && tick - run[j].tick >= GRACE_TICKS
  }

  lemma PairedInTime(run: seq<TimedStep>, i: nat, tick: nat)
    requires forall j: nat :: i < j && ScheduledBy(run, j) ==> run[j].tick <= tick < run[j].tick + HALF_U32
    ensures Paired(run, i, tick) <==> PairedBefore(run, i, tick)
  {
    forall j: nat | i < j && ScheduledBy(run, j)
      ensures TickReached(tick, run[j].tick + GRACE_TICKS) <==> tick - run[j].tick >= GRACE_TICKS
    {
      InRange(tick - (run[j].tick + GRACE_TICKS));
    }
    hide At, Schedules, TickReached;
  }

  /** In plain time: while a session and its pairing are younger than the range of the clocks, 2^32 seconds
      and 2^31 ticks, wrapping makes no difference. */
  lemma {:induction false} PassClosesInTime(run: seq<TimedStep>, t: TimedStep, i: nat)
    requires t.step.Pass? && OpenedBy(run, i)
    requires run[i].now <= t.now < run[i].now + U32
    requires forall j: nat :: i < j && ScheduledBy(run, j) ==> run[j].tick <= t.tick < run[j].tick + HALF_U32
    ensures var timeout := run[i].step.timeout;
            var closes := PairedBefore(run, i, t.tick) || (timeout > 0 && t.now - run[i].now >= timeout);
            Final(run + [t]).enabled == !closes
  {
    assert i < |run| && run[i].step.Enable?;
    InRange(t.now - run[i].now);
    assert RanOut(run[i].step.timeout, run[i].now, t.now) <==>
           run[i].step.timeout > 0 && t.now - run[i].now >= run[i].step.timeout;
    hide Final, Sent, OpenedBy, Paired, PairedBefore, RanOut, ScheduledBy;
    PairedInTime(run, i, t.tick);
    PassClosesExactly(run, t, i);
  }

  lemma OpenThroughPass(run: seq<TimedStep>, i: nat, p: nat)
    requires OpenedBy(run, i) && i < p < |run| && run[p].step.Pass?
    requires run[i].now <= run[p].now < run[i].now + U32 && run[i].step.timeout > 0
    ensures run[p].now - run[i].now < run[i].step.timeout
  {
    OpenedByPrefix(run, p, i);
    AtNext(run, p);
    AtPrefix(run, p, p);
    SessionIsOpen(run[..p]);
    PassOutcome(At(run, p), run[p]);
    hide At, Final, Next, GraceOver, TimedOut;
    TimedOutExact(At(run, p), run[i].now, run[p].now);
    InRange(run[p].now - run[i].now);
  }

  /** A session with a positive timeout does not outlive the first pass at or after start + timeout. */
  lemma ClosedByTimeout(run: seq<TimedStep>, i: nat, p: nat)
    requires i < p < |run| && run[i].step.Enable? && run[p].step.Pass?
    requires forall k :: i < k < |run| ==> !run[k].step.Enable?
    requires 0 < run[i].step.timeout <= run[p].now - run[i].now < U32
    ensures !Final(run).enabled
  {
    hide Final, Next;
    SessionIsOpen(run);
    if Final(run).enabled {
      var o: nat :| OpenedBy(run, o);
      OpenThroughPass(run, o, p);
    }
  }

  // ---- What the host is told -----------------------------------------------------------------------------

  /** Whether an observer of the events believes a session to be open. */
  function OpenAfter(events: seq<Event>): bool {
    if events == [] then false else events[|events| - 1].Enabled?
  }

  /** Every closing is announced with reason 2 when it ends a session and with reason 0 when there was
      none: so no session is ever reported closed twice. */
  ghost predicate ReasonsTell(events: seq<Event>) {
    forall k :: 0 <= k < |events| && events[k].Disabled? ==>
      events[k].reason == if OpenAfter(events[..k]) then 2 else 0
  }

  lemma ReasonsTellSnoc(events: seq<Event>, e: Event)
    requires ReasonsTell(events)
    requires e.Disabled? ==> e.reason == if OpenAfter(events) then 2 else 0
    ensures ReasonsTell(events + [e]) && OpenAfter(events + [e]) == e.Enabled?
  {
    assert OpenAfter(events + [e]) == e.Enabled?;
    hide OpenAfter;
    forall k | 0 <= k < |events + [e]| ensures (events + [e])[..k] == if k < |events| then events[..k] else events {
    }
  }

  /** A step announces at most one change, and every opening and closing. */
  lemma StepAnnounces(s: State, t: TimedStep)
    ensures var o := Next(s, t);
      && (o.events == [] ==> o.state.enabled == s.enabled)
      && (o.events != [] ==> |o.events| == 1 && o.state.enabled == o.events[0].Enabled?)
      && (o.events != [] && o.events[0].Disabled? ==> o.events[0].reason == if s.enabled then 2 else 0)
  {
    hide TickReached, TimedOut;
  }

  lemma {:induction false} EventsTellTheState(run: seq<TimedStep>)
    ensures Final(run).enabled == OpenAfter(Sent(run)) && ReasonsTell(Sent(run))
  {
    if run != [] {
      hide ReasonsTell, OpenAfter, Next, Final, Sent;
      var init, last := run[..|run| - 1], run[|run| - 1];
      assert run == init + [last];
      EventsTellTheState(init);
      FinalSnoc(init, last);
      StepAnnounces(Final(init), last);
      var events := Next(Final(init), last).events;
      if events != [] {
        assert events == [events[0]];
        ReasonsTellSnoc(Sent(init), events[0]);
      }
    }
  }
}
