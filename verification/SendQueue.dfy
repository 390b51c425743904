/** The event queue under interleaving: several tasks call `send_event` while the send task drains it
    (src/send_task.c). Frames are named by their allocation; every queue or heap call is one step. */
module SendQueue {
  import opened TailDrop
  import opened Sequences

  /** How far a task is inside `send_event`, and the frames it holds there. */
  datatype Producer =
    | Idle
    | Built(frame: nat)
    | Refused(frame: nat)
    | Evicted(frame: nat, stale: nat)
    | Retrying(frame: nat)
    | Dropping(frame: nat)

  datatype Consumer = Waiting | Sending(frame: nat)

  /** One removal from the head of the queue, and whether the send task made it. */
  datatype Removal = Removal(frame: nat, bySendTask: bool)

  datatype State = State(
    queue: seq<nat>,
    producers: seq<Producer>,
    consumer: Consumer,
    born: nat,
    freed: seq<nat>,
    enqueued: seq<nat>,
    removed: seq<Removal>)

  datatype Action = Run(task: nat) | OutOfMemory(task: nat) | Send

  function Initial(tasks: nat): State {
    State([], seq(tasks, _ => Idle), Waiting, 0, [], [], [])
  }

  /** The next heap or queue call of a task inside `send_event`; an idle task starts a new event. */
  function RunProducer(s: State, task: nat): State
    requires task < |s.producers|
  {
    match s.producers[task]
    case Idle =>
      s.(producers := s.producers[task := Built(s.born)], born := s.born + 1)
    case Built(f) =>
      if |s.queue| < CAPACITY
      then s.(producers := s.producers[task := Idle], queue := s.queue + [f], enqueued := s.enqueued + [f])
      else s.(producers := s.producers[task := Refused(f)])
    case Refused(f) =>
      if s.queue == [] then s.(producers := s.producers[task := Retrying(f)])
      else s.(producers := s.producers[task := Evicted(f, s.queue[0])], queue := s.queue[1..],
              removed := s.removed + [Removal(s.queue[0], false)])
    case Evicted(f, stale) =>
      s.(producers := s.producers[task := Retrying(f)], freed := s.freed + [stale])
    case Retrying(f) =>
      if |s.queue| < CAPACITY
      then s.(producers := s.producers[task := Idle], queue := s.queue + [f], enqueued := s.enqueued + [f])
      else s.(producers := s.producers[task := Dropping(f)])
    case Dropping(f) =>
      s.(producers := s.producers[task := Idle], freed := s.freed + [f])
  }

  /** The send task takes the head of the queue, sends it (or drops it when disconnected), frees it. */
  function RunSendTask(s: State): State {
    match s.consumer
    case Waiting =>
      if s.queue == [] then s
      else
        s.(consumer := Sending(s.queue[0]), queue := s.queue[1..],
           removed := s.removed + [Removal(s.queue[0], true)])
    case Sending(f) => s.(consumer := Waiting, freed := s.freed + [f])
  }

  function Step(s: State, a: Action): State {
    match a
    case Run(task) => if task < |s.producers| then RunProducer(s, task) else s
    case OutOfMemory(_) => s
    case Send => RunSendTask(s)
  }

  function RunAll(s: State, actions: seq<Action>): State {
    if actions == [] then s else Step(RunAll(s, actions[..|actions| - 1]), actions[|actions| - 1])
  }

  // ---- Where every frame is ------------------------------------------------------------------------

  /** How often a frame is in a task's hands. */
  function HeldBy(p: Producer, f: nat): nat {
    match p
    case Idle => 0
    case Evicted(g, stale) => (if g == f then 1 else 0) + (if stale == f then 1 else 0)
    case _ => if p.frame == f then 1 else 0
  }

  function HeldByAll(ps: seq<Producer>, f: nat): nat {
    if ps == [] then 0 else HeldByAll(ps[..|ps| - 1], f) + HeldBy(ps[|ps| - 1], f)
  }

  function InFlight(c: Consumer, f: nat): nat {
    if c.Sending? && c.frame == f then 1 else 0
  }

  /** How often a frame occurs in all the places it can be: queue, tasks, send task, calls of `free`. */
  function Places(s: State, f: nat): nat {
    Count(s.queue, f) + HeldByAll(s.producers, f) + InFlight(s.consumer, f) + Count(s.freed, f)
  }

  function RemovedFrames(removed: seq<Removal>): seq<nat> {
    if removed == [] then [] else RemovedFrames(removed[..|removed| - 1]) + [removed[|removed| - 1].frame]
  }

  /** The frames the send task has seen, in order. */
  function Delivered(removed: seq<Removal>): seq<nat> {
    if removed == [] then []
    else
      var last := removed[|removed| - 1];
      Delivered(removed[..|removed| - 1]) + (if last.bySendTask then [last.frame] else [])
  }

  ghost predicate Invariant(s: State) {
    && |s.queue| <= CAPACITY
    && (forall f: nat :: Places(s, f) == if f < s.born then 1 else 0)
    && RemovedFrames(s.removed) + s.queue == s.enqueued
  }

  lemma {:induction false} HeldAfterUpdate(ps: seq<Producer>, i: nat, p: Producer, f: nat)
    requires i < |ps|
    ensures HeldByAll(ps[i := p], f) + HeldBy(ps[i], f) == HeldByAll(ps, f) + HeldBy(p, f)
  {
    hide HeldBy;
    var n := |ps| - 1;
    if i < n {
      HeldAfterUpdate(ps[..n], i, p, f);
      assert ps[i := p][..n] == ps[..n][i := p];
    } else {
      assert ps[i := p][..n] == ps[..n];
    }
  }

  lemma {:induction false} NobodyHolds(n: nat, f: nat)
    ensures HeldByAll(seq(n, _ => Idle), f) == 0
  {
    if n > 0 {
      NobodyHolds(n - 1, f);
      assert seq(n, _ => Idle)[..n - 1] == seq(n - 1, _ => Idle);
    }
  }

  lemma CountHead(s: seq<nat>, f: nat)
    requires s != []
    ensures Count(s, f) == Count(s[1..], f) + (if s[0] == f then 1 else 0)
  {
    CountRemove(s, 0, f);
    assert s[..0] + s[1..] == s[1..];
  }

  lemma RemoveHead(queue: seq<nat>, removed: seq<Removal>, sending: bool)
    requires queue != []
    ensures RemovedFrames(removed + [Removal(queue[0], sending)]) + queue[1..] == RemovedFrames(removed) + queue
  {
    assert queue == [queue[0]] + queue[1..];
    assert (removed + [Removal(queue[0], sending)])[..|removed|] == removed;
  }

  /** A call creates at most one frame and otherwise only moves frames between places. */
  lemma ProducerPlaces(s: State, task: nat, f: nat)
    requires task < |s.producers|
    ensures Places(RunProducer(s, task), f)
         == Places(s, f) + (if s.producers[task].Idle? && f == s.born then 1 else 0)
  {
    hide Count, HeldByAll;
    var p := s.producers[task];
    HeldAfterUpdate(s.producers, task, RunProducer(s, task).producers[task], f);
    if p.Refused? && s.queue != [] {
      CountHead(s.queue, f);
    } else if p.Evicted? {
      CountSnoc(s.freed, p.stale, f);
    } else if !p.Idle? {
      CountSnoc(s.queue, p.frame, f);
      CountSnoc(s.freed, p.frame, f);
    }
  }

  lemma ProducerKeepsInvariant(s: State, task: nat)
    requires Invariant(s) && task < |s.producers|
    ensures Invariant(RunProducer(s, task))
  {
    hide Places, RemovedFrames;
    forall f: nat ensures Places(RunProducer(s, task), f) == if f < RunProducer(s, task).born then 1 else 0 {
      ProducerPlaces(s, task, f);
    }
    if s.producers[task].Refused? && s.queue != [] {
      RemoveHead(s.queue, s.removed, false);
    }
  }

  lemma SendTaskKeepsInvariant(s: State)
    requires Invariant(s)
    ensures Invariant(RunSendTask(s))
  {
    hide RemovedFrames, HeldByAll, Count;
    forall f: nat ensures Places(RunSendTask(s), f) == Places(s, f) {
      if s.consumer.Sending? {
        CountSnoc(s.freed, s.consumer.frame, f);
      } else if s.queue != [] {
        CountHead(s.queue, f);
      }
    }
    if s.consumer.Waiting? && s.queue != [] {
      RemoveHead(s.queue, s.removed, true);
    }
  }

  /** In every interleaving of any number of tasks the queue holds at most 64 frames; every frame ever
      allocated is in exactly one place, so none leaks and none is freed twice; and frames leave the
      queue in the order in which they entered it. */
  lemma {:induction false} AlwaysInvariant(tasks: nat, actions: seq<Action>)
    ensures Invariant(RunAll(Initial(tasks), actions))
    ensures |RunAll(Initial(tasks), actions).producers| == tasks
  {
    if actions == [] {
      forall f: nat ensures HeldByAll(Initial(tasks).producers, f) == 0 {
        NobodyHolds(tasks, f);
      }
    } else {
      hide Invariant, RunProducer, RunSendTask;
      var n := |actions| - 1;
      AlwaysInvariant(tasks, actions[..n]);
      StepKeepsInvariant(RunAll(Initial(tasks), actions[..n]), actions[n]);
    }
  }

  lemma StepKeepsInvariant(s: State, a: Action)
    requires Invariant(s)
    ensures Invariant(Step(s, a)) && |Step(s, a).producers| == |s.producers|
  {
    hide Invariant;
    match a {
      case Run(task) => if task < |s.producers| { ProducerKeepsInvariant(s, task); }
      case OutOfMemory(_) =>
      case Send => SendTaskKeepsInvariant(s);
    }
  }

  lemma {:induction false} DeliveredInOrder(removed: seq<Removal>)
    ensures IsSubsequence(Delivered(removed), RemovedFrames(removed))
  {
    if removed != [] {
      hide IsSubsequence;
      var n := |removed| - 1;
      DeliveredInOrder(removed[..n]);
      SubsequenceSnoc(Delivered(removed[..n]), RemovedFrames(removed[..n]), removed[n].frame);
      assert Delivered(removed[..n]) + [] == Delivered(removed[..n]);
    }
  }

  /** What the host can receive is a subsequence, in order, of what was enqueued. */
  lemma SendTaskSeesSubsequence(tasks: nat, actions: seq<Action>)
    ensures var s := RunAll(Initial(tasks), actions);
            IsSubsequence(Delivered(s.removed), s.enqueued)
  {
    var s := RunAll(Initial(tasks), actions);
    AlwaysInvariant(tasks, actions);
    DeliveredInOrder(s.removed);
    SubsequenceExtends(Delivered(s.removed), RemovedFrames(s.removed), s.queue);
  }

  // ---- One task, and a send task that does not get to run ---------------------------------------------

  /** The calls one `send_event` makes when nobody interferes. */
  function SoloCall(s: State): seq<Action> {
    if |s.queue| < CAPACITY then [Run(0), Run(0)] else [Run(0), Run(0), Run(0), Run(0), Run(0)]
  }

  lemma RunTwo(s: State, a: Action, b: Action)
    ensures RunAll(s, [a, b]) == Step(Step(s, a), b)
  {
    assert [a, b][..1] == [a] && [a][..0] == [];
    assert RunAll(s, [a]) == Step(RunAll(s, []), a);
  }

  lemma RunSnoc(s: State, actions: seq<Action>, a: Action)
    ensures RunAll(s, actions + [a]) == Step(RunAll(s, actions), a)
  {
    assert (actions + [a])[..|actions|] == actions;
  }

  /** Step by step, an undisturbed `send_event` is one offer to the tail-drop queue. */
  lemma {:induction false} SoloSendIsOffer(s: State)
    requires |s.producers| == 1 && s.producers[0].Idle? && |s.queue| <= CAPACITY
    ensures var t := RunAll(s, SoloCall(s));
      && t.queue == Offer(s.queue, s.born) && t.born == s.born + 1
      && t.producers == s.producers && t.consumer == s.consumer
  {
    var s1 := Step(s, Run(0));
    var s2 := Step(s1, Run(0));
    RunTwo(s, Run(0), Run(0));
    if |s.queue| == CAPACITY {
      var s3 := Step(s2, Run(0));
      var s4 := Step(s3, Run(0));
      RunSnoc(s, [Run(0), Run(0)], Run(0));
      RunSnoc(s, [Run(0), Run(0), Run(0)], Run(0));
      RunSnoc(s, [Run(0), Run(0), Run(0), Run(0)], Run(0));
      assert [Run(0), Run(0)] + [Run(0)] == [Run(0), Run(0), Run(0)];
      assert [Run(0), Run(0), Run(0)] + [Run(0)] == [Run(0), Run(0), Run(0), Run(0)];
      assert [Run(0), Run(0), Run(0), Run(0)] + [Run(0)] == SoloCall(s);
    }
  }

  function SoloRun(s: State, n: nat): State {
    if n == 0 then s
    else
      var t := SoloRun(s, n - 1);
      RunAll(t, SoloCall(t))
  }

  /** The first `n` frames, in the order they were allocated. */
  function UpTo(n: nat): (frames: seq<nat>)
    ensures |frames| == n && forall i :: 0 <= i < n ==> frames[i] == i
  {
    if n == 0 then [] else UpTo(n - 1) + [n - 1]
  }

  lemma NewestOfNone()
    ensures Newest<nat>([]) == []
  {
  }

  /** After `n` events of a single task the queue is the newest 64 of them. */
  lemma {:induction false} SoloQueueIsNewest(n: nat)
    ensures var s := SoloRun(Initial(1), n);
      && s.queue == Newest<nat>(UpTo(n)) && s.born == n && s.producers == [Idle] && s.consumer == Waiting
  {
    hide RunAll, SoloCall, Step, Offer, Newest;
    if n == 0 {
      assert Newest<nat>([]) == [] by { NewestOfNone(); }
    } else {
      SoloQueueIsNewest(n - 1);
      SoloSendIsOffer(SoloRun(Initial(1), n - 1));
      OfferNewest<nat>(UpTo(n - 1), n - 1);
      assert UpTo(n) == UpTo(n - 1) + [n - 1];
      var s := SoloRun(Initial(1), n - 1);
      assert SoloRun(Initial(1), n) == RunAll(s, SoloCall(s));
    }
  }
}
