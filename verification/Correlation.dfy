/** Matching device responses to host commands (bridge/src/events.py, bridge/src/commands.py). */
module Correlation {
  import opened Wire
  import opened Sequences

  const EVENT_ERROR := 0xFE

  /** A parsed event. Each event class has one opcode; some classes carry the id of a command. */
  datatype Event = Event(opcode: nat, cmdId: Option<nat>, body: int)

  type Index = map<nat, seq<Event>>

  function Pending(index: Index, key: nat): seq<Event> {
    if key in index then index[key] else []
  }

  /** No key is kept for an empty list. */
  ghost predicate NoEmptyEntry(index: Index) {
    forall key :: key in index ==> index[key] != []
  }

  function Put(index: Index, key: nat, s: seq<Event>): Index {
    if s == [] then index - {key} else index[key := s]
  }

  /** The position of the earliest eligible event, or the length of the list. */
  function FirstEligible(s: seq<Event>, eligible: Event -> bool): (i: nat)
    ensures i <= |s| && (i < |s| ==> eligible(s[i]))
    ensures forall j :: 0 <= j < i ==> !eligible(s[j])
  {
    if s == [] || eligible(s[0]) then 0 else 1 + FirstEligible(s[1..], eligible)
  }

  function Ineligible(s: seq<Event>, eligible: Event -> bool): seq<Event> {
    if s == [] then []
    else Ineligible(s[..|s| - 1], eligible) + (if eligible(s[|s| - 1]) then [] else [s[|s| - 1]])
  }

  // ---- The operations on one index, each under the lock ------------------------------------------------

  datatype Action =
    | Add(key: nat, event: Event)
    | Take(key: nat, eligible: Event -> bool)
    | Discard(key: nat, eligible: Event -> bool)
    | Clear

  /** The event a take delivers. */
  function Taken(index: Index, key: nat, eligible: Event -> bool): Option<Event> {
    var s := Pending(index, key);
    var i := FirstEligible(s, eligible);
    if i < |s| then Some(s[i]) else None
  }

  function Apply(index: Index, a: Action): Index {
    match a
    case Add(key, e) => index[key := Pending(index, key) + [e]]
    case Take(key, eligible) =>
      var s := Pending(index, key);
      var i := FirstEligible(s, eligible);
      if i < |s| then Put(index, key, RemoveAt(s, i)) else index
    case Discard(key, eligible) =>
      if key in index then Put(index, key, Ineligible(index[key], eligible)) else index
    case Clear => map[]
  }

  class EventHandler {
    var pendingResponses: Index
    var pendingEvents: Index

    ghost predicate Valid()
      reads this
    {
      NoEmptyEntry(pendingResponses) && NoEmptyEntry(pendingEvents)
    }

    constructor ()
      ensures Valid() && pendingResponses == map[] && pendingEvents == map[]
    {
      pendingResponses, pendingEvents := map[], map[];
    }

    method ClearPending()
      modifies this
      ensures Valid() && pendingResponses == map[] && pendingEvents == map[]
    {
      pendingResponses := map[];
      pendingEvents := map[];
    }

    /** Index an event by its opcode and, if it carries one, by its command id. */
    method HandleEvent(e: Event)
      requires Valid()
      modifies this
      ensures Valid()
      ensures pendingEvents == Apply(old(pendingEvents), Add(e.opcode, e))
      ensures pendingResponses == if e.cmdId.Some? then Apply(old(pendingResponses), Add(e.cmdId.value, e))
                                  else old(pendingResponses)
    {
      pendingEvents := pendingEvents[e.opcode := Pending(pendingEvents, e.opcode) + [e]];
      if e.cmdId.Some? {
        pendingResponses := pendingResponses[e.cmdId.value := Pending(pendingResponses, e.cmdId.value) + [e]];
      }
    }

    /** One poll of `wait_for_response` and of `wait_for_capture_or_error`. */
    method PollResponse(cmdId: nat) returns (r: Option<Event>)
      requires Valid()
      modifies this`pendingResponses
      ensures Valid()
      ensures r == Taken(old(pendingResponses), cmdId, e => true)
      ensures pendingResponses == Apply(old(pendingResponses), Take(cmdId, e => true))
    {
      if cmdId !in pendingResponses {
        return None;
      }
      var responses := pendingResponses[cmdId];
      var response := responses[0];
      responses := responses[1..];
      assert responses == RemoveAt(pendingResponses[cmdId], 0);
      if responses == [] {
        pendingResponses := pendingResponses - {cmdId};
      } else {
        pendingResponses := pendingResponses[cmdId := responses];
      }
      return Some(response);
    }

    /** One poll of `wait_for_response_of_type`: an error is always eligible. */
    method PollResponseOfType(cmdId: nat, types: set<nat>) returns (r: Option<Event>)
      requires Valid()
      modifies this`pendingResponses
      ensures Valid()
      ensures r == Taken(old(pendingResponses), cmdId, (e: Event) => e.opcode in types || e.opcode == EVENT_ERROR)
      ensures pendingResponses
           == Apply(old(pendingResponses), Take(cmdId, (e: Event) => e.opcode in types || e.opcode == EVENT_ERROR))
    {
      ghost var eligible := (e: Event) => e.opcode in types || e.opcode == EVENT_ERROR;
      if cmdId !in pendingResponses {
        return None;
      }
      var responses := pendingResponses[cmdId];
      for i := 0 to |responses|
        invariant pendingResponses == old(pendingResponses)
        invariant forall j :: 0 <= j < i ==> !eligible(responses[j])
      {
        var response := responses[i];
        if response.opcode in types || response.opcode == EVENT_ERROR {
          FirstIs(responses, eligible, i);
          responses := RemoveAt(responses, i);
          if responses == [] {
            pendingResponses := pendingResponses - {cmdId};
          } else {
            pendingResponses := pendingResponses[cmdId := responses];
          }
          return Some(response);
        }
      }
      return None;
    }

    /** One poll of `wait_for_event_matching`; `wait_for_event` finds every event eligible. */
    method PollEventMatching(opcode: nat, eligible: Event -> bool) returns (r: Option<Event>)
      requires Valid()
      modifies this`pendingEvents
      ensures Valid()
      ensures r == Taken(old(pendingEvents), opcode, eligible)
      ensures pendingEvents == Apply(old(pendingEvents), Take(opcode, eligible))
    {
      if opcode !in pendingEvents {
        return None;
      }
      var events := pendingEvents[opcode];
      for i := 0 to |events|
        invariant pendingEvents == old(pendingEvents)
        invariant forall j :: 0 <= j < i ==> !eligible(events[j])
      {
        var event := events[i];
        if eligible(event) {
          FirstIs(events, eligible, i);
          events := RemoveAt(events, i);
          if events == [] {
            pendingEvents := pendingEvents - {opcode};
          } else {
            pendingEvents := pendingEvents[opcode := events];
          }
          return Some(event);
        }
      }
      return None;
    }

    method DiscardEventsMatching(opcode: nat, eligible: Event -> bool) returns (removed: nat)
      requires Valid()
      modifies this`pendingEvents
      ensures Valid()
      ensures pendingEvents == Apply(old(pendingEvents), Discard(opcode, eligible))
      ensures removed == |Pending(old(pendingEvents), opcode)| - |Pending(pendingEvents, opcode)|
    {
      removed := 0;
      if opcode !in pendingEvents {
        return;
      }
      var events := pendingEvents[opcode];
      var kept: seq<Event> := [];
      for i := 0 to |events|
        invariant pendingEvents == old(pendingEvents)
        invariant kept == Ineligible(events[..i], eligible) && removed + |kept| == i
      {
        assert events[..i + 1][..i] == events[..i];
        if eligible(events[i]) {
          removed := removed + 1;
        } else {
          kept := kept + [events[i]];
        }
      }
      assert events[..|events|] == events;
      if kept != [] {
        pendingEvents := pendingEvents[opcode := kept];
      } else {
        pendingEvents := pendingEvents - {opcode};
      }
    }
  }

  lemma {:induction false} FirstIs(s: seq<Event>, eligible: Event -> bool, i: nat)
    requires i < |s| && eligible(s[i]) && forall j :: 0 <= j < i ==> !eligible(s[j])
    ensures FirstEligible(s, eligible) == i
  {
    var k := FirstEligible(s, eligible);
    assert k < |s| ==> eligible(s[k]);
  }

  // ---- Every interleaving --------------------------------------------------------------------------------

  function Run(actions: seq<Action>): Index {
    if actions == [] then map[] else Apply(Run(actions[..|actions| - 1]), actions[|actions| - 1])
  }

  /** What arrived under a key since the last clear, in order. */
  function Received(actions: seq<Action>, key: nat): seq<Event> {
    if actions == [] then []
    else
      var before := Received(actions[..|actions| - 1], key);
      match actions[|actions| - 1]
      case Clear => []
      case Add(k, e) => if k == key then before + [e] else before
      case _ => before
  }

  /** How often waits took or discards dropped an event under a key since the last clear. */
  function Gone(actions: seq<Action>, key: nat, e: Event): nat {
    if actions == [] then 0
    else
      var n := |actions| - 1;
      var before, index := Gone(actions[..n], key, e), Run(actions[..n]);
      match actions[n]
      case Clear => 0
      case Add(_, _) => before
      case Take(k, eligible) => if k == key && Taken(index, k, eligible) == Some(e) then before + 1 else before
      case Discard(k, eligible) => if k == key && eligible(e) then before + Count(Pending(index, key), e) else before
  }

  lemma {:induction false} IneligibleIsSubsequence(s: seq<Event>, eligible: Event -> bool)
    ensures IsSubsequence(Ineligible(s, eligible), s)
  {
    if s != [] {
      hide IsSubsequence;
      var n := |s| - 1;
      var r := Ineligible(s[..n], eligible);
      IneligibleIsSubsequence(s[..n], eligible);
      SubsequenceSnoc(r, s[..n], s[n]);
      assert s == s[..n] + [s[n]];
      if eligible(s[n]) {
        assert Ineligible(s, eligible) == r;
      } else {
        assert Ineligible(s, eligible) == r + [s[n]];
      }
    }
  }

  lemma {:induction false} IneligibleCount(s: seq<Event>, eligible: Event -> bool, e: Event)
    ensures Count(Ineligible(s, eligible), e) == if eligible(e) then 0 else Count(s, e)
  {
    if s != [] {
      var n := |s| - 1;
      IneligibleCount(s[..n], eligible, e);
      CountSnoc(Ineligible(s[..n], eligible), s[n], e);
      assert Ineligible(s[..n], eligible) + [] == Ineligible(s[..n], eligible);
    }
  }

  lemma PutPending(index: Index, key: nat, s: seq<Event>, other: nat)
    ensures Pending(Put(index, key, s), other) == if other == key then s else Pending(index, other)
    ensures NoEmptyEntry(index) ==> NoEmptyEntry(Put(index, key, s))
  {
  }

  /** In every run: no empty entry is kept, what is pending is a subsequence, in order, of what was
      received, and received is delivered or discarded plus pending, event by event. */
  lemma {:induction false} Accounting(actions: seq<Action>, key: nat, e: Event)
    ensures NoEmptyEntry(Run(actions))
    ensures IsSubsequence(Pending(Run(actions), key), Received(actions, key))
    ensures Count(Received(actions, key), e) == Gone(actions, key, e) + Count(Pending(Run(actions), key), e)
  {
    if actions != [] {
      Accounting(actions[..|actions| - 1], key, e);
      match actions[|actions| - 1] {
        case Clear =>
        case Add(_, _) => AddAccounting(actions, key, e);
        case Take(_, _) => TakeAccounting(actions, key, e);
        case Discard(_, _) => DiscardAccounting(actions, key, e);
      }
    }
  }

  ghost predicate Accounted(actions: seq<Action>, key: nat, e: Event) {
    && NoEmptyEntry(Run(actions))
    && IsSubsequence(Pending(Run(actions), key), Received(actions, key))
    && Count(Received(actions, key), e) == Gone(actions, key, e) + Count(Pending(Run(actions), key), e)
  }

  lemma {:induction false} AddAccounting(actions: seq<Action>, key: nat, e: Event)
    requires actions != [] && actions[|actions| - 1].Add? && Accounted(actions[..|actions| - 1], key, e)
    ensures Accounted(actions, key, e)
  {
    hide IsSubsequence, Count;
    var before, added := actions[..|actions| - 1], actions[|actions| - 1].event;
    var all, pending := Received(before, key), Pending(Run(before), key);
    SubsequenceSnoc(pending, all, added);
    CountSnoc(all, added, e);
    CountSnoc(pending, added, e);
  }

  lemma TakeAccounting(actions: seq<Action>, key: nat, e: Event)
    requires actions != [] && actions[|actions| - 1].Take? && Accounted(actions[..|actions| - 1], key, e)
    ensures Accounted(actions, key, e)
  {
    hide IsSubsequence, Count, Put;
    var before := actions[..|actions| - 1];
    var Take(k, eligible) := actions[|actions| - 1];
    var s := Pending(Run(before), k);
    var i := FirstEligible(s, eligible);
    if i < |s| {
      PutPending(Run(before), k, RemoveAt(s, i), key);
      if k == key {
        SubsequenceRemove(s, Received(before, key), i);
        CountRemove(s, i, e);
      }
    }
  }

  lemma DiscardAccounting(actions: seq<Action>, key: nat, e: Event)
    requires actions != [] && actions[|actions| - 1].Discard? && Accounted(actions[..|actions| - 1], key, e)
    ensures Accounted(actions, key, e)
  {
    hide IsSubsequence, Count, Put, Ineligible;
    var before := actions[..|actions| - 1];
    var Discard(k, eligible) := actions[|actions| - 1];
    var index, s := Run(before), Pending(Run(before), key);
    IneligibleIsSubsequence(s, eligible);
    IneligibleCount(s, eligible, e);
    NothingToDiscard(eligible);
    if k in index {
      PutPending(index, k, Ineligible(index[k], eligible), key);
    }
    if k == key {
      SubsequenceTransitive(Ineligible(s, eligible), s, Received(before, key));
    }
  }

  lemma NothingToDiscard(eligible: Event -> bool)
    ensures Ineligible([], eligible) == []
  {
  }

  // ---- Command ids ---------------------------------------------------------------------------------------

  /** The id that the n-th command (from 1) is to carry. */
  function IdOf(n: nat): nat
    requires n > 0
  {
    1 + (n - 1) % 65535
  }

  class CommandDispatcher {
    var nextCmdId: nat
    ghost var issued: nat

    ghost predicate Valid()
      reads this
    {
      nextCmdId == IdOf(issued + 1)
    }

    constructor ()
      ensures Valid() && issued == 0
    {
      nextCmdId, issued := 1, 0;
    }

    method GetNextCmdId() returns (cmdId: nat)
      requires Valid()
      modifies this
      ensures Valid() && issued == old(issued) + 1 && cmdId == IdOf(issued)
    {
      cmdId := nextCmdId;
      nextCmdId := (nextCmdId + 1) % 65536;
      if nextCmdId == 0 {
        nextCmdId := 1;
      }
      issued := issued + 1;
    }

    /** A command that cannot be sent uses up its id all the same. */
    method SendCommand(sendOk: bool) returns (cmdId: Option<nat>)
      requires Valid()
      modifies this
      ensures Valid() && issued == old(issued) + 1
      ensures cmdId == if sendOk then Some(IdOf(issued)) else None
    {
      var id := GetNextCmdId();
      if sendOk {
        return Some(id);
      }
      return None;
    }
  }

  /** Ids are 16-bit, never zero, and repeat exactly every 65535 commands. */
  lemma IdsRepeat(m: nat, n: nat)
    requires m > 0 && n > 0
    ensures 1 <= IdOf(n) < 65536
    ensures IdOf(m) == IdOf(n) <==> (m - n) % 65535 == 0
  {
  }

  // ---- Waits and the commands they are for -----------------------------------------------------------

  /** The n-th command, counting from 1. */
  type Command = n: nat | n > 0 witness 1

  /** What happens to the responses: a command is issued, an event that answers one arrives, somebody who
      waits for a command's response polls, everything pending is forgotten, or the bridge is started anew,
      which also counts its commands from 1 again. An answer may be to a command of an earlier process; those
      are counted from 0. */
  datatype Step =
    | Issued
    | Answered(process: nat, command: Command, event: Event)
    | Polled(command: Command, eligible: Event -> bool)
    | Cleared
    | Restarted

  /** The responses that are pending after some steps. */
  function Responses(steps: seq<Step>): Index {
    if steps == [] then map[]
    else
      var before := Responses(steps[..|steps| - 1]);
      match steps[|steps| - 1]
      case Issued => before
      case Answered(_, m, e) => Apply(before, Add(IdOf(m), e))
      case Polled(n, eligible) => Apply(before, Take(IdOf(n), eligible))
      case Cleared => Apply(before, Clear)
      case Restarted => map[]
  }

  /** How many commands each process has issued. */
  function IssuedBy(steps: seq<Step>): (counts: seq<nat>)
    ensures counts != []
  {
    if steps == [] then [0]
    else
      var before := IssuedBy(steps[..|steps| - 1]);
      match steps[|steps| - 1]
      case Issued => before[|before| - 1 := before[|before| - 1] + 1]
      case Restarted => before + [0]
      case _ => before
  }

  /** The process that is running, and how many commands it has issued. */
  function Current(steps: seq<Step>): nat { |IssuedBy(steps)| - 1 }

  function IssuedCount(steps: seq<Step>): nat { IssuedBy(steps)[Current(steps)] }

  predicate WasIssued(counts: seq<nat>, process: nat, command: Command) {
    process < |counts| && command <= counts[process]
  }

  /** Only a command that was issued is answered. */
  ghost predicate Causal(steps: seq<Step>) {
    forall i :: 0 <= i < |steps| && steps[i].Answered? ==>
      WasIssued(IssuedBy(steps[..i]), steps[i].process, steps[i].command)
  }

  /** Step `i` is the arrival of an answer that carries the id of command `n`. */
  predicate ArrivedFor(steps: seq<Step>, i: nat, n: Command) {
    i < |steps| && steps[i].Answered? && IdOf(steps[i].command) == IdOf(n)
  }

  predicate Forgets(step: Step) { step.Cleared? || step.Restarted? }

  /** The response that arrived in step `i` still waits after the first `k` steps: nothing was forgotten
      since, and no poll found it to be the earliest eligible one. */
  ghost predicate Waits(steps: seq<Step>, i: nat, k: nat)
    decreases k, 0
  {
    && i < k <= |steps| && steps[i].Answered?
    && (i < k - 1 ==>
      && Waits(steps, i, k - 1)
      && match steps[k - 1]
         case Cleared => false
         case Restarted => false
         case Polled(n, eligible) => !NextFor(steps, i, k - 1, n, eligible)
         case _ => true)
  }

  /** It is the earliest of those waiting that carries the id of command `n` and is eligible. */
  ghost predicate NextFor(steps: seq<Step>, i: nat, k: nat, n: Command, eligible: Event -> bool)
    decreases k, 1
  {
    && ArrivedFor(steps, i, n) && eligible(steps[i].event) && Waits(steps, i, k)
    && forall j: nat :: j < i && ArrivedFor(steps, j, n) && eligible(steps[j].event) ==> !Waits(steps, j, k)
  }

  /** The arrivals behind the pending list of an id, in its order. */
  ghost function Arrivals(steps: seq<Step>, n: Command): (arrivals: seq<nat>)
  {
    if steps == [] then []
    else
      var before := Arrivals(steps[..|steps| - 1], n);
      match steps[|steps| - 1]
      case Issued => before
      case Answered(_, m, _) => if IdOf(m) == IdOf(n) then before + [|steps| - 1] else before
      case Polled(m, eligible) =>
        var i := FirstEligible(Pending(Responses(steps[..|steps| - 1]), IdOf(n)), eligible);
        if IdOf(m) == IdOf(n) && i < |before| then RemoveAt(before, i) else before
      case Cleared => []
      case Restarted => []
  }

  /** After `k` steps the arrivals are in order and bring the pending events, and they are exactly those
      that wait. */
  ghost predicate Explains(steps: seq<Step>, k: nat, n: Command, arrivals: seq<nat>, pending: seq<Event>) {
    && |arrivals| == |pending|
    && (forall j :: 0 <= j < |arrivals| ==> ArrivedFor(steps, arrivals[j], n) && steps[arrivals[j]].event == pending[j])
    && (forall i, j :: 0 <= i < j < |arrivals| ==> arrivals[i] < arrivals[j])
    && (forall i: nat :: i in arrivals <==> ArrivedFor(steps, i, n) && Waits(steps, i, k))
  }

  lemma {:induction false} WaitsPrefix(steps: seq<Step>, i: nat, k: nat, m: nat)
    requires k <= m <= |steps|
    ensures Waits(steps[..m], i, k) <==> Waits(steps, i, k)
    decreases k, 0
  {
    if i < k - 1 {
      WaitsPrefix(steps, i, k - 1, m);
      if steps[k - 1].Polled? {
        NextForPrefix(steps, i, k - 1, m, steps[k - 1].command, steps[k - 1].eligible);
      }
    }
  }

  lemma {:induction false} NextForPrefix(steps: seq<Step>, i: nat, k: nat, m: nat, n: Command, eligible: Event -> bool)
    requires k <= m <= |steps| && i < m
    ensures NextFor(steps[..m], i, k, n, eligible) <==> NextFor(steps, i, k, n, eligible)
    decreases k, 1
  {
    hide Waits, IdOf;
    WaitsPrefix(steps, i, k, m);
    forall j: nat | j < i ensures Waits(steps[..m], j, k) <==> Waits(steps, j, k) {
      WaitsPrefix(steps, j, k, m);
    }
    forall j: nat | j <= i ensures ArrivedFor(steps[..m], j, n) <==> ArrivedFor(steps, j, n) {
    }
  }

  lemma ExplainsPrefix(steps: seq<Step>, k: nat, n: Command, arrivals: seq<nat>, pending: seq<Event>)
    requires k <= |steps| && Explains(steps[..k], k, n, arrivals, pending)
    ensures Explains(steps, k, n, arrivals, pending)
  {
    hide Waits, IdOf;
    forall i: nat ensures Waits(steps[..k], i, k) <==> Waits(steps, i, k) {
      WaitsPrefix(steps, i, k, k);
    }
    forall i: nat ensures ArrivedFor(steps[..k], i, n) <==> ArrivedFor(steps, i, n) && i < k {
    }
    WaitsBefore(steps, k);
  }

  lemma WaitsBefore(steps: seq<Step>, k: nat)
    ensures forall i: nat :: Waits(steps, i, k) ==> i < k
  {
  }

  lemma WaitsOn(steps: seq<Step>, i: nat, k: nat)
    requires i < k < |steps|
    ensures Waits(steps, i, k + 1) <==>
              Waits(steps, i, k) && !Forgets(steps[k])
              && (steps[k].Polled? ==> !NextFor(steps, i, k, steps[k].command, steps[k].eligible))
  {
  }

  lemma WaitsNew(steps: seq<Step>, k: nat)
    requires k < |steps|
    ensures Waits(steps, k, k + 1) <==> steps[k].Answered?
  {
  }

  lemma AnsweredStep(steps: seq<Step>, k: nat, n: Command, arrivals: seq<nat>, pending: seq<Event>)
    requires k < |steps| && Explains(steps, k, n, arrivals, pending)
    requires !steps[k].Polled?
    ensures if Forgets(steps[k]) then Explains(steps, k + 1, n, [], [])
            else if ArrivedFor(steps, k, n) then Explains(steps, k + 1, n, arrivals + [k], pending + [steps[k].event])
            else Explains(steps, k + 1, n, arrivals, pending)
  {
    hide Waits, IdOf;
    WaitsBefore(steps, k);
    WaitsBefore(steps, k + 1);
    WaitsNew(steps, k);
    forall i: nat | i < k
      ensures Waits(steps, i, k + 1) <==> Waits(steps, i, k) && !Forgets(steps[k])
    {
      WaitsOn(steps, i, k);
    }
  }

  /** The arrival that a poll takes is the one whose event is the first eligible in the list. */
  lemma TakesFirst(
    steps: seq<Step>, k: nat, n: Command, arrivals: seq<nat>, pending: seq<Event>, eligible: Event -> bool)
    requires Explains(steps, k, n, arrivals, pending)
    ensures var f := FirstEligible(pending, eligible);
      && (forall i: nat :: NextFor(steps, i, k, n, eligible) ==> f < |arrivals| && i == arrivals[f])
      && (f < |arrivals| ==> NextFor(steps, arrivals[f], k, n, eligible))
  {
    hide Waits, IdOf, FirstEligible;
    var f := FirstEligible(pending, eligible);
    forall i: nat | NextFor(steps, i, k, n, eligible) ensures f < |arrivals| && i == arrivals[f] {
      assert i in arrivals;
      var j :| 0 <= j < |arrivals| && arrivals[j] == i;
      assert eligible(pending[j]) && f <= j;
      assert arrivals[f] in arrivals && eligible(steps[arrivals[f]].event);
    }
    if f < |arrivals| {
      assert arrivals[f] in arrivals;
      forall g | 0 <= g < |arrivals| && arrivals[g] < arrivals[f] ensures !eligible(steps[arrivals[g]].event) {
        assert g < f;
      }
      forall j: nat | j < arrivals[f] && ArrivedFor(steps, j, n) && eligible(steps[j].event)
        ensures !Waits(steps, j, k)
      {
        assert j !in arrivals;
      }
    }
  }

  lemma {:induction false} PolledStep(steps: seq<Step>, k: nat, n: Command, arrivals: seq<nat>, pending: seq<Event>)
    requires k < |steps| && steps[k].Polled? && Explains(steps, k, n, arrivals, pending)
    ensures var f := FirstEligible(pending, steps[k].eligible);
            if IdOf(steps[k].command) == IdOf(n) && f < |arrivals|
            then Explains(steps, k + 1, n, RemoveAt(arrivals, f), RemoveAt(pending, f))
            else Explains(steps, k + 1, n, arrivals, pending)
  {
    hide Waits, IdOf, FirstEligible, NextFor, RemoveAt;
    var Polled(m, eligible) := steps[k];
    var f := FirstEligible(pending, eligible);
    WaitsBefore(steps, k);
    WaitsBefore(steps, k + 1);
    WaitsNew(steps, k);
    TakesFirst(steps, k, n, arrivals, pending, eligible);
    forall i: nat | ArrivedFor(steps, i, n) && i < k
      ensures Waits(steps, i, k + 1) <==>
                Waits(steps, i, k) && !(IdOf(m) == IdOf(n) && f < |arrivals| && i == arrivals[f])
    {
      WaitsOn(steps, i, k);
      SameIdSameNext(steps, i, k, m, n, eligible);
    }
    if IdOf(m) == IdOf(n) && f < |arrivals| {
      RemoveAtElements(arrivals, f);
      RemoveAtElements(pending, f);
      RemoveAtMembers(arrivals, f);
    }
  }

  lemma SameIdSameNext(steps: seq<Step>, i: nat, k: nat, m: Command, n: Command, eligible: Event -> bool)
    requires ArrivedFor(steps, i, n)
    ensures NextFor(steps, i, k, m, eligible) <==> IdOf(m) == IdOf(n) && NextFor(steps, i, k, n, eligible)
  {
    hide Waits, IdOf;
    forall j: nat | IdOf(m) == IdOf(n) ensures ArrivedFor(steps, j, m) <==> ArrivedFor(steps, j, n) {
    }
  }

  lemma RemoveAtMembers(s: seq<nat>, f: nat)
    requires f < |s| && forall i, j :: 0 <= i < j < |s| ==> s[i] < s[j]
    ensures forall x: nat :: x in RemoveAt(s, f) <==> x in s && x != s[f]
  {
    var r := RemoveAt(s, f);
    RemoveAtElements(s, f);
    hide RemoveAt;
    forall x: nat | x in s && x != s[f] ensures x in r {
      var j :| 0 <= j < |s| && s[j] == x;
      assert r[if j < f then j else j - 1] == x;
    }
  }

  /** The arrivals behind a pending list, in every run. */
  lemma {:induction false} ArrivalsExplained(steps: seq<Step>, n: Command)
    ensures Explains(steps, |steps|, n, Arrivals(steps, n), Pending(Responses(steps), IdOf(n)))
  {
    if steps != [] {
      var k := |steps| - 1;
      ArrivalsExplained(steps[..k], n);
      ExplainsPrefix(steps, k, n, Arrivals(steps[..k], n), Pending(Responses(steps[..k]), IdOf(n)));
      if steps[k].Polled? {
        PolledStep(steps, k, n, Arrivals(steps[..k], n), Pending(Responses(steps[..k]), IdOf(n)));
        ResponsesPolled(steps, n);
      } else {
        AnsweredStep(steps, k, n, Arrivals(steps[..k], n), Pending(Responses(steps[..k]), IdOf(n)));
      }
      hide Explains, IdOf, FirstEligible;
    }
  }

  lemma ResponsesPolled(steps: seq<Step>, n: Command)
    requires steps != [] && steps[|steps| - 1].Polled?
    ensures var k := |steps| - 1;
            var before := Pending(Responses(steps[..k]), IdOf(n));
            var f := FirstEligible(before, steps[k].eligible);
            Pending(Responses(steps), IdOf(n)) ==
              if IdOf(steps[k].command) == IdOf(n) && f < |before| then RemoveAt(before, f) else before
  {
    hide FirstEligible, IdOf, RemoveAt, Put;
    var k := |steps| - 1;
    var index, m := Responses(steps[..k]), IdOf(steps[k].command);
    var f := FirstEligible(Pending(index, m), steps[k].eligible);
    if f < |Pending(index, m)| {
      PutPending(index, m, RemoveAt(Pending(index, m), f), IdOf(n));
    }
  }

  /** What a wait for command `n` gets. It takes the event of the earliest waiting arrival that carries the
      id and is eligible, and nothing when there is none. */
  lemma {:induction false} WaitTakesNext(steps: seq<Step>, n: Command, eligible: Event -> bool)
    ensures var taken := Taken(Responses(steps), IdOf(n), eligible);
      && (taken.Some? <==> exists i: nat :: NextFor(steps, i, |steps|, n, eligible))
      && (forall i: nat :: NextFor(steps, i, |steps|, n, eligible) ==> taken == Some(steps[i].event))
  {
    var arrivals, pending := Arrivals(steps, n), Pending(Responses(steps), IdOf(n));
    ArrivalsExplained(steps, n);
    TakesFirst(steps, |steps|, n, arrivals, pending, eligible);
    hide Waits, NextFor, IdOf;
  }

  // ---- Crossed responses ---------------------------------------------------------------------------------

  /** The response that arrived in step `i` is the one to command `n` of the running process. */
  predicate IsOwn(steps: seq<Step>, i: nat, n: Command)
    requires i < |steps| && steps[i].Answered?
  {
    steps[i].process == Current(steps) && steps[i].command == n
  }

  /** A wait for command `n` would take the response to another command. */
  ghost predicate TakesForeign(steps: seq<Step>, n: Command, eligible: Event -> bool) {
    exists i: nat :: NextFor(steps, i, |steps|, n, eligible) && !IsOwn(steps, i, n)
  }

  /** A response waits that answers another command, of this process or an earlier one, whose number differs
      from `n` by a multiple of 65535. */
  ghost predicate ForeignWaits(steps: seq<Step>, n: Command, eligible: Event -> bool, i: nat) {
    && Waits(steps, i, |steps|) && eligible(steps[i].event)
    && !IsOwn(steps, i, n) && (steps[i].command - n) % 65535 == 0
  }

  function Polls(n: Command, eligible: Event -> bool, r: nat): seq<Step> {
    if r == 0 then [] else [Polled(n, eligible)] + Polls(n, eligible, r - 1)
  }

  lemma {:induction false} WaitedBefore(steps: seq<Step>, i: nat, k: nat, m: nat)
    requires i < k <= m && Waits(steps, i, m)
    ensures Waits(steps, i, k)
    decreases m
  {
    if k < m {
      WaitedBefore(steps, i, k, m - 1);
    }
  }

  /** What still waits after some polls has waited before them. */
  lemma StillWaited(steps: seq<Step>, polls: seq<Step>, i: nat)
    requires Waits(steps + polls, i, |steps + polls|) && forall j :: 0 <= j < |polls| ==> polls[j].Polled?
    ensures i < |steps| && (steps + polls)[i] == steps[i] && Waits(steps, i, |steps|)
  {
    var all := steps + polls;
    assert i < |all| && all[i].Answered?;
    hide Waits;
    assert forall j :: |steps| <= j < |all| ==> all[j] == polls[j - |steps|];
    WaitedBefore(all, i, |steps|, |all|);
    WaitsPrefix(all, i, |steps|, |steps|);
    assert all[..|steps|] == steps;
  }

  lemma {:induction false} EarliestNext(steps: seq<Step>, k: nat, n: Command, eligible: Event -> bool, i: nat)
    returns (j: nat)
    requires ArrivedFor(steps, i, n) && eligible(steps[i].event) && Waits(steps, i, k)
    ensures j <= i && NextFor(steps, j, k, n, eligible)
    decreases i
  {
    if NextFor(steps, i, k, n, eligible) {
      return i;
    }
    hide Waits, IdOf;
    var h: nat :| h < i && ArrivedFor(steps, h, n) && eligible(steps[h].event) && Waits(steps, h, k);
    j := EarliestNext(steps, k, n, eligible, h);
  }

  /** One poll takes the next response and leaves the others waiting. */
  lemma PollLeaves(steps: seq<Step>, n: Command, eligible: Event -> bool, i: nat, j: nat)
    requires NextFor(steps, j, |steps|, n, eligible)
    ensures var more := steps + [Polled(n, eligible)];
      && (i < |steps| ==>
            (Waits(more, i, |more|) <==> Waits(steps, i, |steps|) && !NextFor(steps, i, |steps|, n, eligible)))
      && more[..|steps|] == steps && Current(more) == Current(steps)
  {
    var k, more := |steps|, steps + [Polled(n, eligible)];
    assert more[..k] == steps && more[k] == Polled(n, eligible);
    hide Waits, NextFor;
    if i < k {
      WaitsPrefix(more, i, k, k);
      NextForPrefix(more, i, k, k, n, eligible);
      WaitsOn(more, i, k);
    }
  }

  lemma {:induction false} ForeignFrom(steps: seq<Step>, n: Command, eligible: Event -> bool, i: nat, j: nat)
    returns (r: nat)
    requires ForeignWaits(steps, n, eligible, i) && ArrivedFor(steps, i, n)
    requires j <= i && NextFor(steps, j, |steps|, n, eligible)
    ensures TakesForeign(steps + Polls(n, eligible, r), n, eligible)
    decreases i - j
  {
    if !IsOwn(steps, j, n) {
      assert steps + Polls(n, eligible, 0) == steps;
      return 0;
    }
    var more := steps + [Polled(n, eligible)];
    assert j < i && Waits(steps, j, |steps|) && i < |steps|;
    assert !NextFor(steps, i, |steps|, n, eligible);
    PollLeaves(steps, n, eligible, i, j);
    hide Waits, IdOf, Current;
    var h := EarliestNext(more, |more|, n, eligible, i);
    assert h > j by {
      PollLeaves(steps, n, eligible, h, j);
      assert ArrivedFor(steps, h, n) && eligible(steps[h].event);
    }
    var q := ForeignFrom(more, n, eligible, i, h);
    r := q + 1;
    assert steps + Polls(n, eligible, r) == more + Polls(n, eligible, q);
  }

  lemma {:induction false} PollsOnly(n: Command, eligible: Event -> bool, r: nat)
    ensures forall j :: 0 <= j < |Polls(n, eligible, r)| ==> Polls(n, eligible, r)[j] == Polled(n, eligible)
  {
    if r > 0 {
      PollsOnly(n, eligible, r - 1);
    }
  }

  lemma {:induction false} PollsIssueNothing(steps: seq<Step>, polls: seq<Step>)
    requires forall j :: 0 <= j < |polls| ==> polls[j].Polled?
    ensures IssuedBy(steps + polls) == IssuedBy(steps)
  {
    if polls == [] {
      assert steps + polls == steps;
    } else {
      var n := |polls| - 1;
      assert (steps + polls)[..|steps| + n] == steps + polls[..n];
      PollsIssueNothing(steps, polls[..n]);
    }
  }

  /** The exact condition. Waiting for command `n`, once or repeatedly, can get the response to another
      command if and only if such a response has arrived since the last clear, carries the same id, that
      is, answers a command of this or an earlier process a multiple of 65535 away, and has not been taken
      yet. */
  lemma CrossTalkIff(steps: seq<Step>, n: Command, eligible: Event -> bool)
    ensures (exists r: nat :: TakesForeign(steps + Polls(n, eligible, r), n, eligible))
            <==> exists i: nat :: ForeignWaits(steps, n, eligible, i)
  {
    hide Waits, IdOf, NextFor, IssuedBy;
    if i: nat :| ForeignWaits(steps, n, eligible, i) {
      var r := ForeignTaken(steps, n, eligible, i);
    }
    if r: nat :| TakesForeign(steps + Polls(n, eligible, r), n, eligible) {
      var i := ForeignWaited(steps, n, eligible, r);
    }
  }

  lemma ForeignTaken(steps: seq<Step>, n: Command, eligible: Event -> bool, i: nat) returns (r: nat)
    requires ForeignWaits(steps, n, eligible, i)
    ensures TakesForeign(steps + Polls(n, eligible, r), n, eligible)
  {
    WaitsBefore(steps, |steps|);
    IdsRepeat(steps[i].command, n);
    hide Waits, IdOf, IssuedBy;
    var j := EarliestNext(steps, |steps|, n, eligible, i);
    r := ForeignFrom(steps, n, eligible, i, j);
  }

  lemma ForeignWaited(steps: seq<Step>, n: Command, eligible: Event -> bool, r: nat) returns (i: nat)
    requires TakesForeign(steps + Polls(n, eligible, r), n, eligible)
    ensures ForeignWaits(steps, n, eligible, i)
  {
    var all := steps + Polls(n, eligible, r);
    var k: nat :| NextFor(all, k, |all|, n, eligible) && !IsOwn(all, k, n);
    PollsOnly(n, eligible, r);
    PollsIssueNothing(steps, Polls(n, eligible, r));
    hide Waits, IssuedBy;
    StillWaited(steps, Polls(n, eligible, r), k);
    IdsRepeat(all[k].command, n);
    i := k;
  }

  /** Since the last clear or restart only responses to these commands, of these processes, have arrived. */
  ghost predicate AnswersOnly(steps: seq<Step>, possible: (nat, Command) -> bool) {
    forall i :: 0 <= i < |steps| && steps[i].Answered? && (forall j :: i < j < |steps| ==> !Forgets(steps[j]))
      ==> possible(steps[i].process, steps[i].command)
  }

  /** The commands of one process from `low` on. */
  function Since(process: nat, low: Command): (nat, Command) -> bool {
    (p, m) => p == process && m >= low
  }

  lemma {:induction false} WaitsUncleared(steps: seq<Step>, i: nat, k: nat)
    requires Waits(steps, i, k)
    ensures forall j :: i < j < k ==> !Forgets(steps[j])
    decreases k
  {
    if i < k - 1 {
      WaitsUncleared(steps, i, k - 1);
    }
  }

  lemma {:induction false} IssuedPrefix(steps: seq<Step>, i: nat, process: nat, command: Command)
    requires i <= |steps| && WasIssued(IssuedBy(steps[..i]), process, command)
    ensures WasIssued(IssuedBy(steps), process, command)
    decreases |steps|
  {
    if i == |steps| {
      assert steps[..i] == steps;
    } else {
      assert steps[..|steps| - 1][..i] == steps[..i];
      IssuedPrefix(steps[..|steps| - 1], i, process, command);
    }
  }

  lemma NextWindow(m: Command)
    ensures IdOf(m + 65535) == IdOf(m)
  {
    IdsRepeat(m, m + 65535);
  }

  // ---- When responses can cross ----------------------------------------------------------------------------

  function Issues(k: nat): seq<Step> {
    if k == 0 then [] else Issues(k - 1) + [Issued]
  }

  function AddedTo(counts: seq<nat>, k: nat): seq<nat>
    requires counts != []
  {
    counts[|counts| - 1 := counts[|counts| - 1] + k]
  }

  lemma StepIssues(steps: seq<Step>, step: Step)
    ensures IssuedBy(steps + [step]) == match step
                                        case Issued => AddedTo(IssuedBy(steps), 1)
                                        case Restarted => IssuedBy(steps) + [0]
                                        case _ => IssuedBy(steps)
  {
    assert (steps + [step])[..|steps|] == steps;
  }

  lemma {:induction false} IssuesAdd(steps: seq<Step>, k: nat)
    ensures IssuedBy(steps + Issues(k)) == AddedTo(IssuedBy(steps), k)
    ensures forall i :: 0 <= i < |Issues(k)| ==> Issues(k)[i] == Issued
  {
    if k == 0 {
      assert steps + [] == steps;
    } else {
      IssuesAdd(steps, k - 1);
      assert Issues(k) == Issues(k - 1) + [Issued];
      hide Issues, IssuedBy;
      assert steps + (Issues(k - 1) + [Issued]) == steps + Issues(k - 1) + [Issued];
      StepIssues(steps + Issues(k - 1), Issued);
    }
  }

  lemma IssuesFromBoot(k: nat)
    ensures IssuedBy(Issues(k)) == [k]
    ensures forall i :: 0 <= i < |Issues(k)| ==> Issues(k)[i] == Issued
  {
    IssuesAdd([], k);
    assert [] + Issues(k) == Issues(k);
  }

  /** Processes that issue these numbers of commands, one after the other. */
  function Processes(counts: seq<nat>): seq<Step>
    requires counts != []
  {
    var n := |counts| - 1;
    if n == 0 then Issues(counts[0]) else Processes(counts[..n]) + [Restarted] + Issues(counts[n])
  }

  lemma {:induction false} ProcessesIssue(counts: seq<nat>)
    requires counts != []
    ensures IssuedBy(Processes(counts)) == counts
    ensures forall i :: 0 <= i < |Processes(counts)| ==> !Processes(counts)[i].Answered?
  {
    var n := |counts| - 1;
    assert Processes(counts) == if n == 0 then Issues(counts[0])
                                else Processes(counts[..n]) + [Restarted] + Issues(counts[n]);
    if n == 0 {
      IssuesFromBoot(counts[0]);
    } else {
      ProcessesIssue(counts[..n]);
      var before := Processes(counts[..n]);
      hide IssuedBy, Issues, Processes;
      StepIssues(before, Restarted);
      IssuesAdd(before + [Restarted], counts[n]);
      assert AddedTo(counts[..n] + [0], counts[n]) == counts;
    }
  }

  /** The response to a command, arriving when nothing else is pending, is taken for every other command with
      the same id. */
  lemma {:induction false} LateAnswerTaken(
    before: seq<Step>, q: nat, m: Command, n: Command, e: Event, eligible: Event -> bool)
    requires forall i :: 0 <= i < |before| ==> !before[i].Answered?
    requires WasIssued(IssuedBy(before), q, m) && !(q == Current(before) && m == n)
    requires IdOf(m) == IdOf(n) && eligible(e)
    ensures var steps := before + [Answered(q, m, e)];
      Causal(steps) && IssuedBy(steps) == IssuedBy(before) && TakesForeign(steps, n, eligible)
  {
    var steps := before + [Answered(q, m, e)];
    assert steps[..|before|] == before;
    WaitsNew(steps, |before|);
    hide IdOf;
    assert NextFor(steps, |before|, |steps|, n, eligible);
  }

  /** Command `m` of process `q` was issued, its response is possible, and it shares the id of command `n` of
      the last process, but is another one. */
  predicate Crosses(counts: seq<nat>, possible: (nat, Command) -> bool, n: Command, q: nat, m: Command) {
    && WasIssued(counts, q, m) && possible(q, m) && !(q == |counts| - 1 && m == n) && (m - n) % 65535 == 0
  }

  /** Exactly when responses can cross. Among the runs whose processes issue these numbers of commands and in
      which only possible responses have arrived since the last clear or restart, there is one in which a
      wait for command `n` takes another's response if and only if some possible response crosses. */
  lemma CrossTalkPossible(counts: seq<nat>, possible: (nat, Command) -> bool, n: Command, e: Event,
                          eligible: Event -> bool)
    requires counts != [] && eligible(e)
    ensures (exists steps :: Causal(steps) && AnswersOnly(steps, possible) && IssuedBy(steps) == counts
                             && TakesForeign(steps, n, eligible))
            <==> exists q: nat, m: Command :: Crosses(counts, possible, n, q, m)
  {
    hide IdOf, Waits, NextFor, IssuedBy;
    if q: nat, m: Command :| Crosses(counts, possible, n, q, m) {
      CrossedRun(counts, possible, n, q, m, e, eligible);
    }
    if steps :| Causal(steps) && AnswersOnly(steps, possible) && IssuedBy(steps) == counts
                && TakesForeign(steps, n, eligible) {
      var q, m := Crossing(steps, possible, n, eligible);
    }
  }

  lemma {:induction false} CrossedRun(
    counts: seq<nat>, possible: (nat, Command) -> bool, n: Command, q: nat, m: Command, e: Event,
    eligible: Event -> bool)
    requires counts != [] && eligible(e) && Crosses(counts, possible, n, q, m)
    ensures var steps := Processes(counts) + [Answered(q, m, e)];
      && Causal(steps) && AnswersOnly(steps, possible) && IssuedBy(steps) == counts
      && TakesForeign(steps, n, eligible)
  {
    IdsRepeat(m, n);
    ProcessesIssue(counts);
    hide IdOf, Waits, NextFor, IssuedBy, Causal, TakesForeign, Processes;
    LateAnswerTaken(Processes(counts), q, m, n, e, eligible);
  }

  /** The command whose response is taken for command `n`. */
  lemma Crossing(steps: seq<Step>, possible: (nat, Command) -> bool, n: Command, eligible: Event -> bool)
    returns (q: nat, m: Command)
    requires Causal(steps) && AnswersOnly(steps, possible) && TakesForeign(steps, n, eligible)
    ensures Crosses(IssuedBy(steps), possible, n, q, m)
  {
    var i: nat :| NextFor(steps, i, |steps|, n, eligible) && !IsOwn(steps, i, n);
    q, m := steps[i].process, steps[i].command;
    WaitsUncleared(steps, i, |steps|);
    IssuedPrefix(steps, i, q, m);
    IdsRepeat(m, n);
    hide Waits, IdOf, IssuedBy;
  }

  /** No response is crossed while none to an earlier process can arrive and fewer than 65536 commands have
      been issued since, and with, the oldest one whose response can. */
  lemma NoCrossTalk(steps: seq<Step>, n: Command, eligible: Event -> bool, low: Command)
    requires Causal(steps) && AnswersOnly(steps, Since(Current(steps), low))
    requires low <= n <= IssuedCount(steps) < low + 65535
    ensures !TakesForeign(steps, n, eligible)
  {
    if TakesForeign(steps, n, eligible) {
      var q, m := Crossing(steps, Since(Current(steps), low), n, eligible);
      CrossesSince(IssuedBy(steps), low, n, q, m);
      NotApart(m, n);
      assert false;
    }
  }

  /** Commands with the same id are a whole window apart. */
  lemma NotApart(m: Command, n: Command)
    requires (m - n) % 65535 == 0 && m != n
    ensures m >= n + 65535 || n >= m + 65535
  {
  }

  lemma CrossesSince(counts: seq<nat>, low: Command, n: Command, q: nat, m: Command)
    requires counts != []
    ensures Crosses(counts, Since(|counts| - 1, low), n, q, m) <==>
              q == |counts| - 1 && low <= m <= counts[q] && m != n && (m - n) % 65535 == 0
  {
  }

  /** The bound is exact. With no response to an earlier process, and none to a command older than `low`, a
      wait for command `n` can take another's response if and only if 65535 commands lie between it and the
      oldest or the newest of them. */
  lemma {:induction false} WindowIsExact(counts: seq<nat>, low: Command, n: Command, e: Event, eligible: Event -> bool)
    requires counts != [] && low <= n <= counts[|counts| - 1] && eligible(e)
    ensures (exists steps :: Causal(steps) && AnswersOnly(steps, Since(|counts| - 1, low))
                             && IssuedBy(steps) == counts && TakesForeign(steps, n, eligible))
            <==> low + 65535 <= n || n + 65535 <= counts[|counts| - 1]
  {
    var possible := Since(|counts| - 1, low);
    CrossTalkPossible(counts, possible, n, e, eligible);
    hide Waits, IssuedBy, Causal, AnswersOnly, TakesForeign, Crosses, Since;
    CrossesIff(counts, possible, low, n);
  }

  lemma CrossesIff(counts: seq<nat>, possible: (nat, Command) -> bool, low: Command, n: Command)
    requires counts != [] && low <= n <= counts[|counts| - 1] && possible == Since(|counts| - 1, low)
    ensures (exists q: nat, m: Command :: Crosses(counts, possible, n, q, m))
            <==> low + 65535 <= n || n + 65535 <= counts[|counts| - 1]
  {
    var last := |counts| - 1;
    hide Crosses, Since;
    if low + 65535 <= n {
      CrossesSince(counts, low, n, last, n - 65535);
    } else if n + 65535 <= counts[last] {
      CrossesSince(counts, low, n, last, n + 65535);
    } else {
      forall q: nat, m: Command ensures !Crosses(counts, possible, n, q, m) {
        CrossesSince(counts, low, n, q, m);
        if Crosses(counts, possible, n, q, m) {
          NotApart(m, n);
        }
      }
    }
  }

  /** A clear with `k` commands issued before it and `r` after it. */
  function AroundClear(k: nat, r: nat): seq<Step> {
    Issues(k) + [Cleared] + Issues(r)
  }

  lemma AroundClearCount(k: nat, r: nat)
    ensures IssuedBy(AroundClear(k, r)) == [k + r]
    ensures forall i :: 0 <= i < |AroundClear(k, r)| ==> !AroundClear(k, r)[i].Answered?
  {
    IssuesFromBoot(k);
    hide Issues, IssuedBy;
    StepIssues(Issues(k), Cleared);
    IssuesAdd(Issues(k) + [Cleared], r);
  }

  /** A clear does not start a new window. With `k` commands issued before it, the response to command `m`
      of these can arrive after it, and the wait for command m + 65535 takes it, however few commands have
      been issued since the clear. */
  lemma ClearDoesNotHelp(m: Command, k: nat, e: Event, eligible: Event -> bool)
    requires m <= k <= m + 65535 && eligible(e)
    ensures var steps := AroundClear(k, m + 65535 - k) + [Answered(0, m, e)];
      Causal(steps) && IssuedBy(steps) == [m + 65535] && TakesForeign(steps, m + 65535, eligible)
  {
    AroundClearCount(k, m + 65535 - k);
    hide AroundClear, IssuedBy, IdOf, Causal, TakesForeign;
    NextWindow(m);
    LateAnswerTaken(AroundClear(k, m + 65535 - k), 0, m, m + 65535, e, eligible);
  }

  /** Nor does a restart, which even starts the ids again: the response to command `m` of the process before
      can arrive after it, and the wait for command `m` of the new process takes it. */
  lemma {:induction false} RestartDoesNotHelp(before: nat, since: nat, m: Command, e: Event, eligible: Event -> bool)
    requires m <= before && m <= since && eligible(e)
    ensures var steps := Issues(before) + [Restarted] + Issues(since) + [Answered(0, m, e)];
      Causal(steps) && IssuedBy(steps) == [before, since] && TakesForeign(steps, m, eligible)
  {
    ProcessesIssue([before, since]);
    assert [before, since][..1] == [before];
    hide IssuedBy, IdOf, Causal, TakesForeign, Issues;
    assert Processes([before]) == Issues(before);
    LateAnswerTaken(Processes([before, since]), 0, m, m, e, eligible);
  }
}
