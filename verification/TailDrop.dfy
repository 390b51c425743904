/** The bounded queues of the firmware: when one is full, its oldest entry makes room for the newest
    (src/send_task.c, src/tcp_client.c). */
module TailDrop {

  const CAPACITY := 64

  /** The queue after one more entry is offered with no other task at work. */
  function Offer<T>(queue: seq<T>, x: T): seq<T> {
    if |queue| < CAPACITY then queue + [x] else queue[1..] + [x]
  }

  function OfferAll<T>(queue: seq<T>, xs: seq<T>): seq<T> {
    if xs == [] then queue else Offer(OfferAll(queue, xs[..|xs| - 1]), xs[|xs| - 1])
  }

  /** The newest entries, at most as many as the queue holds. */
  function Newest<T>(s: seq<T>): (r: seq<T>)
    ensures |r| <= CAPACITY
  {
    if |s| <= CAPACITY then s else s[|s| - CAPACITY..]
  }

  lemma OfferNewest<T>(s: seq<T>, x: T)
    ensures Offer(Newest(s), x) == Newest(s + [x])
  {
  }

  /** While nobody takes from it, a queue holds exactly the newest 64 of all that was offered. */
  lemma {:induction false} OfferAllIsNewest<T>(queue: seq<T>, xs: seq<T>)
    requires |queue| <= CAPACITY
    ensures OfferAll(queue, xs) == Newest(queue + xs)
  {
    if xs == [] {
      assert queue + xs == queue;
    } else {
      hide Offer, Newest;
      var n := |xs| - 1;
      OfferAllIsNewest(queue, xs[..n]);
      OfferNewest(queue + xs[..n], xs[n]);
      assert queue + xs == (queue + xs[..n]) + [xs[n]];
    }
  }
}
