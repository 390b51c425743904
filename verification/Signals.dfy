/** Signals as lists of levels held for a time, the shape every part of the signal pipeline exchanges. */
module Signals {

  datatype Edge = Edge(level: int, duration: int)

  /** Total time of a signal, in microseconds. */
  function Duration(s: seq<Edge>): int {
    if s == [] then 0 else s[0].duration + Duration(s[1..])
  }

  lemma {:induction false} DurationConcat(a: seq<Edge>, b: seq<Edge>)
    ensures Duration(a + b) == Duration(a) + Duration(b)
  {
    if a == [] {
      assert a + b == b;
    } else {
      assert (a + b)[1..] == a[1..] + b;
      DurationConcat(a[1..], b);
    }
  }
}
