/** The bridge's software glitch filter for captured signals (bridge/src/client.py). */
module Resolution {

  datatype Pulse = Pulse(level: int, duration: nat)

  /** Elapsed time of a capture. */
  function Total(s: seq<Pulse>): nat {
    if s == [] then 0 else Total(s[..|s| - 1]) + s[|s| - 1].duration
  }

  /** The instant at which pulse `i` begins. */
  function Start(s: seq<Pulse>, i: nat): nat
    requires i <= |s|
  {
    Total(s[..i])
  }

  /** The line level at time `t`; the last pulse is taken to hold for ever. */
  function LevelAt(s: seq<Pulse>, t: nat): int
    requires s != []
  {
    var last := |s| - 1;
    if last == 0 || t >= Total(s[..last]) then s[last].level else LevelAt(s[..last], t)
  }

  predicate Wide(s: seq<Pulse>, resolution: int, i: nat)
    requires i < |s|
  {
    s[i].duration >= resolution
  }

  ghost predicate HasWide(s: seq<Pulse>, resolution: int) {
    exists i :: 0 <= i < |s| && Wide(s, resolution, i)
  }

  /** `i` is the wide pulse that decides the filtered level at time `t`: the last one that started
      by `t`, or the first one of the capture when none has started yet. */
  ghost predicate Decides(s: seq<Pulse>, resolution: int, t: nat, i: nat) {
    && i < |s| && Wide(s, resolution, i)
    && if Start(s, i) <= t
       then forall j :: i < j < |s| && Wide(s, resolution, j) ==> t < Start(s, j)
       else forall j :: 0 <= j < i ==> !Wide(s, resolution, j)
  }

  /** No pulse is narrower than the resolution and neighbours differ in level. */
  ghost predicate Clean(s: seq<Pulse>, resolution: int) {
    && (forall i :: 0 <= i < |s| ==> s[i].duration >= resolution)
    && (forall i :: 0 < i < |s| ==> s[i - 1].level != s[i].level)
  }

  // ---- The loop, as a fold over the capture ------------------------------------------------

  datatype Filter = Filter(merged: seq<Pulse>, carry: nat)

  function Widen(s: seq<Pulse>, extra: nat): (r: seq<Pulse>)
    requires s != []
  {
    var last := s[|s| - 1];
    s[..|s| - 1] + [last.(duration := last.duration + extra)]
  }

  function Feed(f: Filter, p: Pulse, resolution: int): Filter {
    if p.duration < resolution then
      if f.merged != [] then f.(merged := Widen(f.merged, p.duration))
      else f.(carry := f.carry + p.duration)
    else
      var d := p.duration + f.carry;
      if f.merged != [] && f.merged[|f.merged| - 1].level == p.level
      then Filter(Widen(f.merged, d), 0)
      else Filter(f.merged + [Pulse(p.level, d)], 0)
  }

  function Run(edges: seq<Pulse>, resolution: int): Filter {
    if edges == [] then Filter([], 0)
    else Feed(Run(edges[..|edges| - 1], resolution), edges[|edges| - 1], resolution)
  }

  function Applied(edges: seq<Pulse>, resolution: int): seq<Pulse> {
    if resolution <= 1 || edges == [] then edges else Run(edges, resolution).merged
  }

  method ApplyResolution(edges: seq<Pulse>, resolution: int) returns (merged: seq<Pulse>)
    ensures merged == Applied(edges, resolution)
    ensures resolution <= 1 ==> merged == edges
  {
    if resolution <= 1 || edges == [] {
      return edges;
    }
    merged := [];
    var carry: nat := 0;
    for i := 0 to |edges|
      invariant Filter(merged, carry) == Run(edges[..i], resolution)
    {
      assert edges[..i + 1][..i] == edges[..i];
      var Pulse(level, duration) := edges[i];
      if duration < resolution {
        if merged != [] {
          var Pulse(plevel, pdur) := merged[|merged| - 1];
          merged := merged[..|merged| - 1] + [Pulse(plevel, pdur + duration)];
        } else {
          carry := carry + duration;
        }
        continue;
      }
      duration := duration + carry;
      carry := 0;
      if merged != [] && merged[|merged| - 1].level == level {
        var Pulse(plevel, pdur) := merged[|merged| - 1];
        merged := merged[..|merged| - 1] + [Pulse(plevel, pdur + duration)];
      } else {
        merged := merged + [Pulse(level, duration)];
      }
    }
    assert edges[..|edges|] == edges;
    RunAccounting(edges, resolution);
    if carry > 0 && merged != [] {
      assert false; // a carry survives the loop only when nothing was kept
    }
  }

  // ---- Properties --------------------------------------------------------------------------

  lemma TotalSnoc(s: seq<Pulse>, p: Pulse)
    ensures Total(s + [p]) == Total(s) + p.duration
  {
    assert (s + [p])[..|s|] == s;
  }

  lemma WidenFacts(s: seq<Pulse>, extra: nat)
    requires s != []
    ensures Total(Widen(s, extra)) == Total(s) + extra
    ensures forall t: nat :: LevelAt(Widen(s, extra), t) == LevelAt(s, t)
  {
    var w := Widen(s, extra);
    assert w[..|w| - 1] == s[..|s| - 1];
  }

  /** Time is conserved: what is not in the kept pulses is in the carry, and a carry is only left
      over when no pulse was wide enough to keep. */
  lemma {:induction false} RunAccounting(edges: seq<Pulse>, resolution: int)
    ensures var f := Run(edges, resolution);
      && Total(f.merged) + f.carry == Total(edges)
      && (f.merged != [] ==> f.carry == 0)
      && (f.merged != [] <==> HasWide(edges, resolution))
  {
    if edges != [] {
      var n := |edges| - 1;
      var init, p := edges[..n], edges[n];
      RunAccounting(init, resolution);
      var f := Run(init, resolution);
      if f.merged != [] {
        WidenFacts(f.merged, p.duration);
        WidenFacts(f.merged, p.duration + f.carry);
      }
      TotalSnoc(f.merged, Pulse(p.level, p.duration + f.carry));
      if HasWide(init, resolution) {
        var i :| 0 <= i < |init| && Wide(init, resolution, i);
        assert Wide(edges, resolution, i);
      }
      if HasWide(edges, resolution) {
        var i :| 0 <= i < |edges| && Wide(edges, resolution, i);
        assert i < n ==> Wide(init, resolution, i);
      }
      if p.duration >= resolution {
        assert Wide(edges, resolution, n);
      }
    }
  }

  /** The filter keeps the whole duration of a capture that has a wide pulse, and returns nothing
      for one that has none. */
  lemma DurationConserved(edges: seq<Pulse>, resolution: int)
    requires resolution > 1
    ensures HasWide(edges, resolution) ==> Total(Applied(edges, resolution)) == Total(edges)
    ensures Applied(edges, resolution) == [] <==> !HasWide(edges, resolution)
  {
    RunAccounting(edges, resolution);
  }

  lemma {:induction false} RunClean(edges: seq<Pulse>, resolution: int)
    ensures Clean(Run(edges, resolution).merged, resolution)
  {
    if edges != [] {
      RunClean(edges[..|edges| - 1], resolution);
    }
  }

  lemma DecidesPrefix(edges: seq<Pulse>, resolution: int, t: nat, i: nat)
    requires edges != [] && i < |edges| - 1
    requires Decides(edges, resolution, t, i)
    ensures Decides(edges[..|edges| - 1], resolution, t, i)
  {
    var init := edges[..|edges| - 1];
    forall j | 0 <= j < |init|
      ensures Start(init, j) == Start(edges, j) && Wide(init, resolution, j) == Wide(edges, resolution, j)
    {
      assert init[..j] == edges[..j];
    }
  }

  /** One step of the loop changes the level only from the start of a wide pulse on. */
  lemma FeedLevel(f: Filter, p: Pulse, resolution: int, t: nat)
    requires f.merged != []
    ensures var g := Feed(f, p, resolution).merged;
      && g != []
      && LevelAt(g, t) == if p.duration >= resolution && t >= Total(f.merged) then p.level else LevelAt(f.merged, t)
  {
    var last := |f.merged| - 1;
    var d := p.duration + f.carry;
    if p.duration < resolution {
      WidenFacts(f.merged, p.duration);
    } else if f.merged[last].level == p.level {
      WidenFacts(f.merged, d);
    } else {
      assert (f.merged + [Pulse(p.level, d)])[..last + 1] == f.merged;
    }
  }

  lemma {:induction false} StartMonotone(s: seq<Pulse>, i: nat, j: nat)
    requires i <= j <= |s|
    ensures Start(s, i) <= Start(s, j)
    decreases j
  {
    if i < j {
      StartMonotone(s, i, j - 1);
      assert s[..j][..j - 1] == s[..j - 1];
    }
  }

  /** At every instant the filtered signal has the level of the wide pulse that decides it. */
  lemma {:induction false} LevelIsDecided(edges: seq<Pulse>, resolution: int, t: nat, i: nat)
    requires resolution > 1
    requires Decides(edges, resolution, t, i)
    ensures Applied(edges, resolution) != []
    ensures LevelAt(Applied(edges, resolution), t) == edges[i].level
  {
    var n := |edges| - 1;
    var init, p := edges[..n], edges[n];
    RunAccounting(init, resolution);
    var f := Run(init, resolution);
    if i < n {
      if Wide(edges, resolution, n) && Start(edges, i) > t {
        StartMonotone(edges, i, n); // nothing wide has started by t, so neither has pulse n
      }
      DecidesPrefix(edges, resolution, t, i);
      LevelIsDecided(init, resolution, t, i);
      FeedLevel(f, p, resolution, t);
    } else if f.merged == [] {
      assert Run(edges, resolution).merged == [Pulse(p.level, p.duration + f.carry)];
    } else {
      var k :| 0 <= k < |init| && Wide(init, resolution, k);
      assert Wide(edges, resolution, k);
      FeedLevel(f, p, resolution, t);
    }
  }

  /** Some wide pulse decides every instant of a capture that has one. */
  lemma SomePulseDecides(edges: seq<Pulse>, resolution: int, t: nat) returns (i: nat)
    requires HasWide(edges, resolution)
    ensures Decides(edges, resolution, t, i)
  {
    var k :| 0 <= k < |edges| && Wide(edges, resolution, k);
    i := |edges|;
    while i > 0 && !(Wide(edges, resolution, i - 1) && Start(edges, i - 1) <= t)
      invariant i <= |edges|
      invariant forall j :: i <= j < |edges| && Wide(edges, resolution, j) ==> t < Start(edges, j)
    {
      i := i - 1;
    }
    if i > 0 {
      return i - 1;
    }
    while !Wide(edges, resolution, i)
      invariant i <= k
      invariant forall j :: 0 <= j < i ==> !Wide(edges, resolution, j)
      decreases k - i
    {
      i := i + 1;
    }
  }

  /** A clean capture with positive durations is determined by its length and its level over time. */
  lemma {:induction false} CleanUnique(a: seq<Pulse>, b: seq<Pulse>, resolution: int)
    requires resolution > 1 && Clean(a, resolution) && Clean(b, resolution)
    requires Total(a) == Total(b)
    requires a != [] && b != [] ==> forall t :: 0 <= t < Total(a) ==> LevelAt(a, t) == LevelAt(b, t)
    ensures a == b
  {
    if a != [] && b != [] {
      var la, lb := |a| - 1, |b| - 1;
      var sa, sb := Total(a[..la]), Total(b[..lb]);
      if sa < sb {
        CleanLastStart(a, b, resolution);
      } else if sb < sa {
        CleanLastStart(b, a, resolution);
      }
      assert LevelAt(a, sa) == LevelAt(b, sa);
      var pa, pb := a[..la], b[..lb];
      if pa != [] && pb != [] {
        forall t | 0 <= t < Total(pa) ensures LevelAt(pa, t) == LevelAt(pb, t) {
          assert LevelAt(a, t) == LevelAt(b, t);
        }
      }
      CleanUnique(pa, pb, resolution);
      assert a == pa + [a[la]] && b == pb + [b[lb]];
    }
  }

  /** Two clean captures with the same levels cannot have last pulses that start apart. */
  lemma CleanLastStart(a: seq<Pulse>, b: seq<Pulse>, resolution: int)
    requires resolution > 1 && Clean(a, resolution) && Clean(b, resolution)
    requires a != [] && b != [] && Total(a) == Total(b)
    requires Total(a[..|a| - 1]) < Total(b[..|b| - 1])
    ensures exists t :: 0 <= t < Total(a) && LevelAt(a, t) != LevelAt(b, t)
  {
    var lb := |b| - 1;
    var sb := Total(b[..lb]);
    assert lb > 0;
    assert b[..lb][..lb - 1] == b[..lb - 1];
    assert LevelAt(b, sb) == b[lb].level;
    assert LevelAt(b, sb - 1) == LevelAt(b[..lb], sb - 1) == b[lb - 1].level;
    assert LevelAt(a, sb) == LevelAt(a, sb - 1) == a[|a| - 1].level;
    assert b[lb - 1].level != b[lb].level;
  }

  /** The result is clean, so a second pass changes nothing. */
  lemma FilterIdempotent(edges: seq<Pulse>, resolution: int)
    ensures Applied(Applied(edges, resolution), resolution) == Applied(edges, resolution)
  {
    if resolution > 1 {
      RunClean(edges, resolution);
      FixpointsAreClean(Applied(edges, resolution), resolution);
    }
  }

  /** The captures that the filter leaves alone are exactly the clean ones. */
  lemma FixpointsAreClean(edges: seq<Pulse>, resolution: int)
    requires resolution > 1
    ensures Applied(edges, resolution) == edges <==> Clean(edges, resolution)
  {
    RunClean(edges, resolution);
    if Clean(edges, resolution) {
      CleanIsKept(edges, resolution);
    }
  }

  lemma {:induction false} CleanIsKept(edges: seq<Pulse>, resolution: int)
    requires Clean(edges, resolution)
    ensures Run(edges, resolution) == Filter(edges, 0)
  {
    if edges != [] {
      var n := |edges| - 1;
      CleanIsKept(edges[..n], resolution);
      assert edges == edges[..n] + [edges[n]];
    }
  }

  /** The filter is the only one of its kind: whatever clean signal lasts as long as the capture and
      follows the deciding wide pulse at each instant is the signal the filter returns. */
  lemma FilterCharacterised(edges: seq<Pulse>, resolution: int, other: seq<Pulse>)
    requires resolution > 1 && HasWide(edges, resolution)
    requires Clean(other, resolution) && other != [] && Total(other) == Total(edges)
    requires forall t: nat, i: nat :: t < Total(edges) && Decides(edges, resolution, t, i)
                                      ==> LevelAt(other, t) == edges[i].level
    ensures other == Applied(edges, resolution)
  {
    var kept := Applied(edges, resolution);
    RunClean(edges, resolution);
    DurationConserved(edges, resolution);
    forall t | 0 <= t < Total(kept) ensures LevelAt(kept, t) == LevelAt(other, t) {
      var i := SomePulseDecides(edges, resolution, t);
      LevelIsDecided(edges, resolution, t, i);
    }
    CleanUnique(kept, other, resolution);
  }
}
