/** Subsequences and counts: what is left of a sequence when some of its elements are taken out. */
module Sequences {

  function RemoveAt<T>(s: seq<T>, i: nat): seq<T>
    requires i < |s|
  {
    s[..i] + s[i + 1..]
  }

  lemma RemoveAtElements<T>(s: seq<T>, i: nat)
    requires i < |s|
    ensures |RemoveAt(s, i)| == |s| - 1
    ensures forall k :: 0 <= k < |s| - 1 ==> RemoveAt(s, i)[k] == s[if k < i then k else k + 1]
  {
  }

  ghost predicate IsSubsequence<T>(a: seq<T>, b: seq<T>) {
    if a == [] then true
    else if b == [] then false
    else if a[|a| - 1] == b[|b| - 1] && IsSubsequence(a[..|a| - 1], b[..|b| - 1]) then true
    else IsSubsequence(a, b[..|b| - 1])
  }

  lemma SubsequenceSnoc<T>(a: seq<T>, b: seq<T>, x: T)
    requires IsSubsequence(a, b)
    ensures IsSubsequence(a, b + [x]) && IsSubsequence(a + [x], b + [x])
  {
    assert (b + [x])[..|b|] == b && (a + [x])[..|a|] == a;
  }

  lemma {:induction false} SubsequenceExtends<T>(a: seq<T>, b: seq<T>, more: seq<T>)
    requires IsSubsequence(a, b)
    ensures IsSubsequence(a, b + more)
  {
    if more == [] {
      assert b + more == b;
    } else {
      SubsequenceExtends(a, b, more[..|more| - 1]);
      assert (b + more)[..|b + more| - 1] == b + more[..|more| - 1];
    }
  }

  /** Taking one more element out of a subsequence leaves a subsequence. */
  lemma {:induction false} SubsequenceRemove<T>(a: seq<T>, b: seq<T>, i: nat)
    requires IsSubsequence(a, b) && i < |a|
    ensures IsSubsequence(a[..i] + a[i + 1..], b)
  {
    var r := a[..i] + a[i + 1..];
    var a', b' := a[..|a| - 1], b[..|b| - 1];
    var matched := a[|a| - 1] == b[|b| - 1] && IsSubsequence(a', b');
    assert !matched ==> IsSubsequence(a, b');
    hide IsSubsequence;
    assert b == b' + [b[|b| - 1]];
    if !matched {
      SubsequenceRemove(a, b', i);
      SubsequenceSnoc(r, b', b[|b| - 1]);
    } else if i == |a| - 1 {
      assert r == a';
      SubsequenceSnoc(a', b', b[|b| - 1]);
    } else {
      SubsequenceRemove(a', b', i);
      var r' := a'[..i] + a'[i + 1..];
      SubsequenceSnoc(r', b', b[|b| - 1]);
      assert r == r' + [a[|a| - 1]];
    }
  }

  lemma {:induction false} SubsequenceTransitive<T>(a: seq<T>, b: seq<T>, c: seq<T>)
    requires IsSubsequence(a, b) && IsSubsequence(b, c)
    ensures IsSubsequence(a, c)
    decreases |b| + |c|
  {
    if a != [] {
      var a', b', c' := a[..|a| - 1], b[..|b| - 1], c[..|c| - 1];
      assert a == a' + [a[|a| - 1]] && c == c' + [c[|c| - 1]];
      if b[|b| - 1] == c[|c| - 1] && IsSubsequence(b', c') {
        if a[|a| - 1] == b[|b| - 1] && IsSubsequence(a', b') {
          SubsequenceTransitive(a', b', c');
          SubsequenceSnoc(a', c', c[|c| - 1]);
        } else {
          SubsequenceTransitive(a, b', c');
          SubsequenceSnoc(a, c', c[|c| - 1]);
        }
      } else {
        SubsequenceTransitive(a, b, c');
        SubsequenceSnoc(a, c', c[|c| - 1]);
      }
    }
  }

  function Count<T(==)>(s: seq<T>, x: T): nat {
    if s == [] then 0 else Count(s[..|s| - 1], x) + (if s[|s| - 1] == x then 1 else 0)
  }

  lemma CountSnoc<T>(s: seq<T>, y: T, x: T)
    ensures Count(s + [y], x) == Count(s, x) + (if y == x then 1 else 0)
  {
    assert (s + [y])[..|s|] == s;
  }

  /** Taking an element out lowers its count by one and no other. */
  lemma {:induction false} CountRemove<T>(s: seq<T>, i: nat, x: T)
    requires i < |s|
    ensures Count(s, x) == Count(s[..i] + s[i + 1..], x) + (if s[i] == x then 1 else 0)
  {
    var n := |s| - 1;
    if i == n {
      assert s[..i] + s[i + 1..] == s[..n];
    } else {
      CountRemove(s[..n], i, x);
      assert s[..i] + s[i + 1..] == (s[..n][..i] + s[..n][i + 1..]) + [s[n]];
      CountSnoc(s[..n][..i] + s[..n][i + 1..], s[n], x);
    }
  }
}
