/** Edges as RMT items (src/gpio_signal_task.c): packed two to an item and written in chunks, repeated with
    gaps, and unpacked again on reception. */
module RmtPacking {
  import opened Arithmetic
  import opened Board
  import opened Signals
  import opened Wire
  import opened SignalAdmission

  /** An RMT item: two halves of a 1-bit level and a 15-bit duration. A half of duration 0 ends a
      transmission. */
  datatype RmtItem = RmtItem(level0: int, duration0: int, level1: int, duration1: int)

  const DURATIONS := 0x8000
  const WORDS_PER_BLOCK := 48
  const MAX_BLOCKS := 4
  const PAD := Edge(0, 0)

  /** An edge as the bit fields of a half keep it. */
  function Stored(e: Edge): Edge { Edge(e.level % 2, e.duration % DURATIONS) }

  predicate Storable(e: Edge) { 0 <= e.level <= 1 && 0 <= e.duration < DURATIONS }

  /** One half of an item. */
  function Half(items: seq<RmtItem>, k: nat): Edge
    requires k < 2 * |items|
  {
    var item := items[k / 2];
    if k % 2 == 0 then Edge(item.level0, item.duration0) else Edge(item.level1, item.duration1)
  }

  /** The halves of the items in the order they are played. */
  function Halves(items: seq<RmtItem>): (edges: seq<Edge>)
    ensures |edges| == 2 * |items|
  {
    seq(2 * |items|, k requires 0 <= k < 2 * |items| => Half(items, k))
  }

  /** The number of items an edge list takes. */
  function ItemCount(n: nat): nat { (n + 1) / 2 }

  function ItemAt(edges: seq<Edge>, i: nat): RmtItem
    requires 2 * i < |edges|
  {
    var a := Stored(edges[2 * i]);
    var b := if 2 * i + 1 < |edges| then Stored(edges[2 * i + 1]) else PAD;
    RmtItem(a.level, a.duration, b.level, b.duration)
  }

  function Packed(edges: seq<Edge>): (items: seq<RmtItem>)
    ensures |items| == ItemCount(|edges|)
  {
    seq(ItemCount(|edges|), i requires 0 <= i < ItemCount(|edges|) => ItemAt(edges, i))
  }

  /** The writes of one repetition, of at most `m` items each. */
  function Chunks(edges: seq<Edge>, m: nat): seq<seq<RmtItem>>
    requires m > 0
  {
    if edges == [] then []
    else if |edges| <= 2 * m then [Packed(edges)]
    else [Packed(edges[..2 * m])] + Chunks(edges[2 * m..], m)
  }

  /** What the driver is asked to do. */
  datatype Op = Write(items: seq<RmtItem>) | Gap(us: int)

  function Writes(chunks: seq<seq<RmtItem>>): (ops: seq<Op>)
    ensures |ops| == |chunks|
  {
    seq(|chunks|, i requires 0 <= i < |chunks| => Write(chunks[i]))
  }

  /** All repetitions, with the gaps between them. */
  function Repeated(chunks: seq<seq<RmtItem>>, count: nat, gap: nat): seq<Op> {
    if count == 0 then []
    else Writes(chunks) + (if count > 1 && gap > 0 then [Gap(gap)] else []) + Repeated(chunks, count - 1, gap)
  }

  function ChunkSize(n: nat): (m: nat)
    ensures WORDS_PER_BLOCK <= m <= MAX_BLOCKS * WORDS_PER_BLOCK
  {
    var blocks := (ItemCount(n) + WORDS_PER_BLOCK - 1) / WORDS_PER_BLOCK;
    (if blocks < 1 then 1 else if blocks > MAX_BLOCKS then MAX_BLOCKS else blocks) * WORDS_PER_BLOCK
  }

  /** The whole transmission of an edge list. */
  function Transmission(edges: seq<Edge>, count: nat, gap: nat): seq<Op> {
    Repeated(Chunks(edges, ChunkSize(|edges|)), count, gap)
  }

  /** The outcome of an attempt: `ops` is as much of `all` as the driver took, up to and with the first
      write it refuses. `ok(done + k)` says whether it takes the k-th of these operations. */
  ghost predicate Attempt(ops: seq<Op>, all: seq<Op>, ok: nat -> bool, done: nat, failed: bool) {
    && ops <= all
    && (if failed then ops != [] && ops[|ops| - 1].Write? && !ok(done + |ops| - 1) else ops == all)
    && forall k: nat :: k < |ops| && ops[k].Write? && !(failed && k == |ops| - 1) ==> ok(done + k)
  }

  /** The driver has taken all of `ops`. */
  ghost predicate Taken(ops: seq<Op>, ok: nat -> bool, done: nat) {
    forall k: nat :: k < |ops| && ops[k].Write? ==> ok(done + k)
  }

  /** A further part `once` of the work, taken or refused in the middle. */
  lemma AttemptGrows(
    ops: seq<Op>, once: seq<Op>, rest: seq<Op>, writes: seq<Op>, ok: nat -> bool, done: nat, failed: bool)
    requires Taken(ops, ok, done) && Attempt(writes, once, ok, done + |ops|, failed)
    ensures failed ==> Attempt(ops + writes, ops + (once + rest), ok, done, true)
    ensures !failed ==> ops + writes + rest == ops + (once + rest) && Taken(ops + writes, ok, done)
  {
    forall k: nat | k < |ops + writes| && (ops + writes)[k].Write? && !(failed && k == |ops + writes| - 1)
      ensures ok(done + k)
    {
      if k < |ops| {
        assert ops[k].Write?;
      } else {
        assert writes[k - |ops|].Write? && ok(done + |ops| + (k - |ops|));
      }
    }
    if failed {
      assert (ops + writes)[|ops + writes| - 1] == writes[|writes| - 1];
    }
  }

  // ---- Transmission --------------------------------------------------------------------------------------

  /** Fill the chunk buffer from the signal bytes. */
  method FillChunk(data: array<byte>, n: nat, sent: nat, count: nat, chunkBuf: array<RmtItem>)
    requires data.Length == 5 * n && sent + 2 * count <= n + 1 && count <= chunkBuf.Length
    modifies chunkBuf
    ensures forall i :: 0 <= i < count ==> 2 * i < |EdgesIn(data[..])[sent..]|
    ensures forall i :: 0 <= i < count ==> chunkBuf[i] == ItemAt(EdgesIn(data[..])[sent..], i)
  {
    hide FromLe;
    ghost var bytes := data[..];
    ghost var edges := EdgesIn(bytes);
    for i := 0 to count
      invariant data[..] == bytes
      invariant forall k :: 0 <= k < i ==> chunkBuf[k] == ItemAt(edges[sent..], k)
    {
      var edgeIdx := sent + i * 2;
      var level0 := data[edgeIdx * 5];
      var duration0 := FromLe(data[edgeIdx * 5 + 1..edgeIdx * 5 + 5]);
      var level1, duration1 := 0, 0;
      if edgeIdx + 1 < n {
        level1 := data[(edgeIdx + 1) * 5];
        duration1 := FromLe(data[(edgeIdx + 1) * 5 + 1..(edgeIdx + 1) * 5 + 5]);
      }
      EdgeRead(bytes, edgeIdx);
      assert data[edgeIdx * 5 + 1..edgeIdx * 5 + 5] == bytes[5 * edgeIdx + 1..5 * edgeIdx + 5];
      if edgeIdx + 1 < n {
        EdgeRead(bytes, edgeIdx + 1);
        assert data[(edgeIdx + 1) * 5 + 1..(edgeIdx + 1) * 5 + 5]
            == bytes[5 * (edgeIdx + 1) + 1..5 * (edgeIdx + 1) + 5];
      }
      chunkBuf[i] := RmtItem(level0 % 2, duration0 % DURATIONS, level1 % 2, duration1 % DURATIONS);
    }
  }

  lemma EdgeRead(bytes: seq<byte>, i: nat)
    requires |bytes| % 5 == 0 && i < |bytes| / 5
    ensures EdgesIn(bytes)[i] == Edge(bytes[5 * i], FromLe(bytes[5 * i + 1..5 * i + 5]))
  {
  }

  /** `ops` are taken, and the edges from `sent` on are still to be written. */
  ghost predicate Sending(ops: seq<Op>, edges: seq<Edge>, sent: nat, m: nat, ok: nat -> bool, done: nat) {
    && m > 0 && sent <= |edges| && Taken(ops, ok, done)
    && ops + Writes(Chunks(edges[sent..], m)) == Writes(Chunks(edges, m))
  }

  lemma SendingStarts(edges: seq<Edge>, m: nat, ok: nat -> bool, done: nat)
    requires m > 0
    ensures Sending([], edges, 0, m, ok, done)
  {
    assert edges[0..] == edges;
  }

  lemma SendingEnds(ops: seq<Op>, edges: seq<Edge>, m: nat, ok: nat -> bool, done: nat)
    requires Sending(ops, edges, |edges|, m, ok, done)
    ensures Attempt(ops, Writes(Chunks(edges, m)), ok, done, false)
  {
    assert edges[|edges|..] == [];
    assert Writes(Chunks([], m)) == [];
  }

  /** The next write is the packing of as many edges as fit, and leaves the chunks of the rest. */
  lemma ChunksStep(edges: seq<Edge>, m: nat, items: seq<RmtItem>)
    requires m > 0 && edges != []
    requires |items| == if ItemCount(|edges|) > m then m else ItemCount(|edges|)
    requires forall i :: 0 <= i < |items| ==> items[i] == ItemAt(edges, i)
    ensures var taken := if 2 * |items| > |edges| then |edges| else 2 * |items|;
            Writes(Chunks(edges, m)) == [Write(items)] + Writes(Chunks(edges[taken..], m))
  {
    hide ItemAt;
    if |edges| <= 2 * m {
      assert items == Packed(edges);
    } else {
      PackedPrefix(edges, m);
      assert items == Packed(edges[..2 * m]);
    }
  }

  lemma PackedPrefix(edges: seq<Edge>, m: nat)
    requires 2 * m <= |edges|
    ensures |Packed(edges[..2 * m])| == m
    ensures forall i :: 0 <= i < m ==> Packed(edges[..2 * m])[i] == ItemAt(edges, i)
  {
    forall i | 0 <= i < m ensures Packed(edges[..2 * m])[i] == ItemAt(edges, i) {
      assert Packed(edges[..2 * m])[i] == ItemAt(edges[..2 * m], i);
    }
  }

  lemma SendingStep(ops: seq<Op>, edges: seq<Edge>, sent: nat, next: nat, m: nat, ok: nat -> bool, done: nat,
                    items: seq<RmtItem>)
    requires Sending(ops, edges, sent, m, ok, done) && sent < |edges|
    requires |items| == if ItemCount(|edges| - sent) > m then m else ItemCount(|edges| - sent)
    requires forall i :: 0 <= i < |items| ==> items[i] == ItemAt(edges[sent..], i)
    requires next == if 2 * |items| > |edges| - sent then |edges| else sent + 2 * |items|
    ensures ok(done + |ops|) ==> Sending(ops + [Write(items)], edges, next, m, ok, done)
    ensures !ok(done + |ops|) ==> Attempt(ops + [Write(items)], Writes(Chunks(edges, m)), ok, done, true)
  {
    hide ItemAt, Chunks, Writes, Attempt, Taken;
    ChunksStep(edges[sent..], m, items);
    assert edges[sent..][next - sent..] == edges[next..];
    OneMoreWrite(ops, items, Writes(Chunks(edges[next..], m)), Writes(Chunks(edges, m)), ok, done);
  }

  lemma OneMoreWrite(ops: seq<Op>, items: seq<RmtItem>, rest: seq<Op>, all: seq<Op>, ok: nat -> bool, done: nat)
    requires Taken(ops, ok, done) && ops + ([Write(items)] + rest) == all
    ensures ok(done + |ops|) ==> Taken(ops + [Write(items)], ok, done) && ops + [Write(items)] + rest == all
    ensures !ok(done + |ops|) ==> Attempt(ops + [Write(items)], all, ok, done, true)
  {
    hide Attempt, Taken;
    OneWrite(items, ok, done + |ops|);
    AttemptGrows(ops, [Write(items)], rest, [Write(items)], ok, done, !ok(done + |ops|));
  }

  lemma OneWrite(items: seq<RmtItem>, ok: nat -> bool, at: nat)
    ensures Attempt([Write(items)], [Write(items)], ok, at, !ok(at))
  {
  }

  /** One repetition. The driver takes the chunks one by one; `done` operations came before. */
  method TransmitOnce(data: array<byte>, n: nat, chunkBuf: array<RmtItem>, ok: nat -> bool, done: nat)
    returns (ops: seq<Op>, failed: bool)
    requires data.Length == 5 * n && chunkBuf.Length > 0
    modifies chunkBuf
    ensures Attempt(ops, Writes(Chunks(EdgesIn(data[..]), chunkBuf.Length)), ok, done, failed)
  {
    hide EdgesIn, ItemAt, Attempt, Sending, Chunks, Writes;
    ghost var bytes := data[..];
    ghost var edges := EdgesIn(bytes);
    var maxChunk := chunkBuf.Length;
    ops, failed := [], false;
    var sent := 0;
    SendingStarts(edges, maxChunk, ok, done);
    while sent < n
      invariant sent <= n && data[..] == bytes
      invariant Sending(ops, edges, sent, maxChunk, ok, done)
    {
      var chunkEdges := n - sent;
      var chunkCount := (chunkEdges + 1) / 2;
      if chunkCount > maxChunk {
        chunkCount := maxChunk;
      }
      chunkEdges := chunkCount * 2;
      if chunkEdges > n - sent {
        chunkEdges := n - sent;
      }
      FillChunk(data, n, sent, chunkCount, chunkBuf);
      var items := chunkBuf[..chunkCount];
      SendingStep(ops, edges, sent, sent + chunkEdges, maxChunk, ok, done, items);
      var taken := ok(done + |ops|);
      ops := ops + [Write(items)];
      if !taken {
        failed := true;
        return;
      }
      sent := sent + chunkEdges;
    }
    SendingEnds(ops, edges, maxChunk, ok, done);
  }

  /** `ops` are taken, and `left` of `count` repetitions are still to be sent. */
  ghost predicate Repeating(ops: seq<Op>, chunks: seq<seq<RmtItem>>, left: nat, count: nat, gap: nat, ok: nat -> bool) {
    Taken(ops, ok, 0) && ops + Repeated(chunks, left, gap) == Repeated(chunks, count, gap)
  }

  lemma RepeatingEnds(ops: seq<Op>, chunks: seq<seq<RmtItem>>, count: nat, gap: nat, ok: nat -> bool)
    ensures Repeating([], chunks, count, count, gap, ok)
    ensures Repeating(ops, chunks, 0, count, gap, ok) ==> Attempt(ops, Repeated(chunks, count, gap), ok, 0, false)
  {
  }

  lemma RepeatingStep(ops: seq<Op>, chunks: seq<seq<RmtItem>>, left: nat, count: nat, gap: nat, ok: nat -> bool,
                      writes: seq<Op>, failed: bool)
    requires Repeating(ops, chunks, left, count, gap, ok) && left > 0
    requires Attempt(writes, Writes(chunks), ok, |ops|, failed)
    ensures failed ==> Attempt(ops + writes, Repeated(chunks, count, gap), ok, 0, true)
    ensures !failed && left > 1 && gap > 0 ==> Repeating(ops + writes + [Gap(gap)], chunks, left - 1, count, gap, ok)
    ensures !failed && !(left > 1 && gap > 0) ==> Repeating(ops + writes, chunks, left - 1, count, gap, ok)
  {
    var pause := if left > 1 && gap > 0 then [Gap(gap)] else [];
    var rest := Repeated(chunks, left - 1, gap);
    assert Writes(chunks) + pause + rest == Writes(chunks) + (pause + rest);
    hide Writes, Repeated, Attempt;
    AttemptGrows(ops, Writes(chunks), pause + rest, writes, ok, 0, failed);
    if !failed {
      GapTaken(ops + writes, pause, rest, ok);
    }
  }

  lemma GapTaken(ops: seq<Op>, pause: seq<Op>, left: seq<Op>, ok: nat -> bool)
    requires Taken(ops, ok, 0) && forall k :: 0 <= k < |pause| ==> pause[k].Gap?
    ensures Taken(ops + pause, ok, 0) && ops + pause + left == ops + (pause + left)
    ensures pause == [] ==> ops + pause == ops
  {
  }

  /** The transmit loop: all repetitions, until the driver refuses a write. */
  method Transmit(data: array<byte>, n: nat, count: nat, gap: nat, chunkBuf: array<RmtItem>, ok: nat -> bool)
    returns (ops: seq<Op>, failed: bool)
    requires data.Length == 5 * n && chunkBuf.Length == ChunkSize(n)
    modifies chunkBuf
    ensures Attempt(ops, Transmission(EdgesIn(data[..]), count, gap), ok, 0, failed)
  {
    hide Chunks, EdgesIn, ChunkSize, Writes, Repeated, Attempt, Repeating;
    ghost var bytes := data[..];
    ghost var chunks := Chunks(EdgesIn(bytes), ChunkSize(n));
    ops, failed := [], false;
    var repetition := 0;
    RepeatingEnds(ops, chunks, count, gap, ok);
    while repetition < count
      invariant repetition <= count && data[..] == bytes
      invariant Repeating(ops, chunks, count - repetition, count, gap, ok)
    {
      var writes, writeFailed := TransmitOnce(data, n, chunkBuf, ok, |ops|);
      RepeatingStep(ops, chunks, count - repetition, count, gap, ok, writes, writeFailed);
      ops := ops + writes;
      if writeFailed {
        failed := true;
        return;
      }
      if repetition + 1 < count && gap > 0 {
        ops := ops + [Gap(gap)];
      }
      repetition := repetition + 1;
    }
    RepeatingEnds(ops, chunks, count, gap, ok);
  }

  // ---- Nothing is lost ------------------------------------------------------------------------------------

  function StoredAll(edges: seq<Edge>): (s: seq<Edge>)
    ensures |s| == |edges|
  {
    seq(|edges|, i requires 0 <= i < |edges| => Stored(edges[i]))
  }

  /** Packing keeps every edge, as the bit fields hold it, in order, and adds at most one pad. */
  lemma PackedHalves(edges: seq<Edge>)
    ensures Halves(Packed(edges)) == StoredAll(edges) + (if |edges| % 2 == 1 then [PAD] else [])
  {
    forall k | 0 <= k < 2 * ItemCount(|edges|)
      ensures Halves(Packed(edges))[k] == (StoredAll(edges) + (if |edges| % 2 == 1 then [PAD] else []))[k]
    {
      assert Packed(edges)[k / 2] == ItemAt(edges, k / 2);
    }
  }

  /** The items give back the edges exactly when every edge fits its bit fields. */
  lemma PackingIsFaithful(edges: seq<Edge>)
    ensures Halves(Packed(edges))[..|edges|] == edges <==> forall i :: 0 <= i < |edges| ==> Storable(edges[i])
  {
    PackedHalves(edges);
    assert Halves(Packed(edges))[..|edges|] == StoredAll(edges);
    if StoredAll(edges) == edges {
      forall i | 0 <= i < |edges| ensures Storable(edges[i]) {
        assert StoredAll(edges)[i] == edges[i];
      }
    }
  }

  function Joined(chunks: seq<seq<RmtItem>>): seq<RmtItem> {
    if chunks == [] then [] else chunks[0] + Joined(chunks[1..])
  }

  lemma PackedConcat(a: seq<Edge>, b: seq<Edge>)
    requires |a| % 2 == 0
    ensures Packed(a + b) == Packed(a) + Packed(b)
  {
    var h := |a| / 2;
    forall i | 0 <= i < ItemCount(|a + b|) ensures Packed(a + b)[i] == (Packed(a) + Packed(b))[i] {
      if i >= h {
        assert (a + b)[2 * i] == b[2 * (i - h)];
        assert Packed(b)[i - h] == ItemAt(b, i - h);
      } else {
        assert Packed(a)[i] == ItemAt(a, i);
      }
    }
  }

  /** Chunks lose nothing and split no pair: joined they are the packing of the whole list, each is within
      the chunk buffer, and none is empty. */
  lemma {:induction false} ChunksJoin(edges: seq<Edge>, m: nat)
    requires m > 0
    ensures Joined(Chunks(edges, m)) == Packed(edges)
    ensures forall i :: 0 <= i < |Chunks(edges, m)| ==> 1 <= |Chunks(edges, m)[i]| <= m
  {
    hide Packed, Joined;
    if edges == [] {
      assert Packed(edges) == [] == Joined([]) by { JoinedOne([]); }
    } else if |edges| <= 2 * m {
      JoinedOne(Packed(edges));
    } else {
      ChunksJoin(edges[2 * m..], m);
      JoinedCons(Packed(edges[..2 * m]), Chunks(edges[2 * m..], m));
      PackedConcat(edges[..2 * m], edges[2 * m..]);
      assert edges[..2 * m] + edges[2 * m..] == edges;
    }
  }

  lemma JoinedOne(items: seq<RmtItem>)
    ensures Joined([items]) == items && Joined([]) == []
  {
    assert [items][1..] == [];
  }

  lemma JoinedCons(items: seq<RmtItem>, chunks: seq<seq<RmtItem>>)
    ensures Joined([items] + chunks) == items + Joined(chunks)
  {
    assert ([items] + chunks)[1..] == chunks;
  }

  // ---- Reception ------------------------------------------------------------------------------------------

  /** The edges that reception keeps: those of positive duration. */
  function Seen(edges: seq<Edge>): seq<Edge> {
    if edges == [] then []
    else Seen(edges[..|edges| - 1]) + (if edges[|edges| - 1].duration > 0 then [edges[|edges| - 1]] else [])
  }

  function Cut(edges: seq<Edge>, max: nat): seq<Edge> {
    if |edges| <= max then edges else edges[..max]
  }

  lemma {:induction false} SeenConcat(a: seq<Edge>, b: seq<Edge>)
    ensures Seen(a + b) == Seen(a) + Seen(b)
  {
    if b == [] {
      assert a + b == a;
    } else {
      assert (a + b)[..|a + b| - 1] == a + b[..|b| - 1];
      SeenConcat(a, b[..|b| - 1]);
    }
  }

  lemma {:induction false} SeenAll(edges: seq<Edge>)
    requires forall i :: 0 <= i < |edges| ==> edges[i].duration > 0
    ensures Seen(edges) == edges
  {
    if edges != [] {
      SeenAll(edges[..|edges| - 1]);
      assert edges == edges[..|edges| - 1] + [edges[|edges| - 1]];
    }
  }

  lemma SeenSnoc(edges: seq<Edge>, e: Edge)
    ensures Seen(edges + [e]) == Seen(edges) + if e.duration > 0 then [e] else []
  {
    assert (edges + [e])[..|edges|] == edges;
  }

  lemma CutAgain(a: seq<Edge>, b: seq<Edge>, max: nat)
    ensures Cut(Cut(a, max) + b, max) == Cut(a + b, max)
  {
  }

  /** Store a half of positive duration while there is room. */
  method Keep(rxEdges: array<Edge>, edged: nat, e: Edge) returns (total: nat)
    requires edged <= rxEdges.Length
    modifies rxEdges
    ensures total <= rxEdges.Length
    ensures rxEdges[..total] == Cut(old(rxEdges[..edged]) + Seen([e]), rxEdges.Length)
  {
    total := edged;
    SeenSnoc([], e);
    if e.duration > 0 && edged < rxEdges.Length {
      rxEdges[edged] := e;
      total := edged + 1;
    }
  }

  /** Unpack one batch of received items behind the `edged` edges already stored. */
  method UnpackItems(items: seq<RmtItem>, rxEdges: array<Edge>, edged: nat) returns (total: nat)
    requires edged <= rxEdges.Length
    modifies rxEdges
    ensures total <= rxEdges.Length
    ensures rxEdges[..total] == Cut(old(rxEdges[..edged]) + Seen(Halves(items)), rxEdges.Length)
  {
    hide Halves, Seen, Cut, Filled;
    var max := rxEdges.Length;
    ghost var before := rxEdges[..edged];
    total := edged;
    var j := 0;
    FilledNone(before, items, max);
    while j < |items|
      invariant j <= |items| && total <= max
      invariant rxEdges[..total] == Filled(before, Halves(items[..j]), max)
    {
      HalvesSplit(items, j);
      ghost var halves := Halves(items[..j]);
      ghost var first, second := Edge(items[j].level0, items[j].duration0), Edge(items[j].level1, items[j].duration1);
      if total >= max {
        FilledStays(before, halves, Halves(items[j..]), max);
        break;
      }
      total := Keep(rxEdges, total, Edge(items[j].level0, items[j].duration0));
      FilledMore(before, halves, [first], max);
      if total >= max {
        FilledStays(before, halves + [first], [second] + Halves(items[j + 1..]), max);
        break;
      }
      total := Keep(rxEdges, total, Edge(items[j].level1, items[j].duration1));
      FilledMore(before, halves + [first], [second], max);
      j := j + 1;
    }
    assert items[..|items|] == items;
    FilledIs(before, Halves(items), max);
  }

  /** What the capture buffer holds after these halves. */
  ghost function Filled(before: seq<Edge>, halves: seq<Edge>, max: nat): seq<Edge> {
    Cut(before + Seen(halves), max)
  }

  lemma FilledIs(before: seq<Edge>, halves: seq<Edge>, max: nat)
    ensures Filled(before, halves, max) == Cut(before + Seen(halves), max)
  {
  }

  lemma FilledNone(before: seq<Edge>, items: seq<RmtItem>, max: nat)
    requires |before| <= max
    ensures Filled(before, Halves(items[..0]), max) == before
  {
    assert Halves(items[..0]) == [] && before + [] == before;
  }

  lemma FilledMore(before: seq<Edge>, a: seq<Edge>, b: seq<Edge>, max: nat)
    ensures Cut(Filled(before, a, max) + Seen(b), max) == Filled(before, a + b, max)
  {
    hide Cut, Seen;
    CutSeen(before, a, b, max);
  }

  lemma FilledStays(before: seq<Edge>, a: seq<Edge>, b: seq<Edge>, max: nat)
    requires |Filled(before, a, max)| >= max
    ensures Filled(before, a + b, max) == Filled(before, a, max)
  {
    FullStays(before, a, b, max);
  }

  lemma HalvesSplit(items: seq<RmtItem>, j: nat)
    requires j < |items|
    ensures Halves(items) == Halves(items[..j]) + Halves(items[j..])
    ensures var first, second := Edge(items[j].level0, items[j].duration0), Edge(items[j].level1, items[j].duration1);
      && Halves(items[..j + 1]) == Halves(items[..j]) + [first] + [second]
      && Halves(items) == Halves(items[..j]) + [first] + ([second] + Halves(items[j + 1..]))
  {
  }

  lemma CutSeen(before: seq<Edge>, a: seq<Edge>, b: seq<Edge>, max: nat)
    ensures Cut(Cut(before + Seen(a), max) + Seen(b), max) == Cut(before + Seen(a + b), max)
  {
    SeenConcat(a, b);
    CutAgain(before + Seen(a), Seen(b), max);
    assert before + Seen(a) + Seen(b) == before + Seen(a + b);
  }

  /** Once the buffer is full, later items change nothing. */
  lemma FullStays(before: seq<Edge>, a: seq<Edge>, b: seq<Edge>, max: nat)
    requires |Cut(before + Seen(a), max)| >= max
    ensures Cut(before + Seen(a + b), max) == Cut(before + Seen(a), max)
  {
    SeenConcat(a, b);
    assert before + Seen(a) + Seen(b) == before + Seen(a + b);
  }

  function JoinedBatches(batches: seq<seq<RmtItem>>): seq<Edge> {
    if batches == [] then [] else JoinedBatches(batches[..|batches| - 1]) + Halves(batches[|batches| - 1])
  }

  /** One turn of the reception loop: the time its condition reads, and what the ring buffer then delivers. */
  datatype Poll = Poll(now: nat, items: Option<seq<RmtItem>>)

  /** The batches received until the time reaches `end`. */
  function Delivered(polls: seq<Poll>, end: nat): seq<seq<RmtItem>> {
    if polls == [] || polls[0].now >= end then []
    else (if polls[0].items.Some? then [polls[0].items.value] else []) + Delivered(polls[1..], end)
  }

  /** The reception loop: however the ring buffer delivers the items, the capture is the seen halves of
      all that come before the end time, cut to the requested number of edges. */
  method Receive(polls: seq<Poll>, end: nat, rxEdges: array<Edge>) returns (edged: nat)
    modifies rxEdges
    ensures edged <= rxEdges.Length
    ensures rxEdges[..edged] == Cut(Seen(JoinedBatches(Delivered(polls, end))), rxEdges.Length)
  {
    var max := rxEdges.Length;
    ghost var got: seq<seq<RmtItem>> := [];
    edged := 0;
    var i := 0;
    assert Cut(Seen(JoinedBatches([])), max) == [];
    DeliveredStarts(polls, end);
    hide Halves, Seen, Cut, JoinedBatches, Delivered, DeliveredSoFar;
    while i < |polls| && polls[i].now < end
      invariant i <= |polls| && edged <= max
      invariant DeliveredSoFar(polls, got, i, end)
      invariant rxEdges[..edged] == Cut(Seen(JoinedBatches(got)), max)
    {
      var items := polls[i].items;
      DeliveredMore(polls, got, i, end);
      i := i + 1;
      if items.None? {
        continue;
      }
      edged := UnpackItems(items.value, rxEdges, edged);
      BatchUnpacked(got, items.value, max);
      got := got + [items.value];
    }
    DeliveredEnds(polls, got, i, end);
  }

  /** These batches have been taken in the first `i` turns. */
  ghost predicate DeliveredSoFar(polls: seq<Poll>, got: seq<seq<RmtItem>>, i: nat, end: nat)
    requires i <= |polls|
  {
    got + Delivered(polls[i..], end) == Delivered(polls, end)
  }

  lemma DeliveredStarts(polls: seq<Poll>, end: nat)
    ensures DeliveredSoFar(polls, [], 0, end)
  {
    assert polls[0..] == polls;
    hide Delivered;
  }

  lemma DeliveredMore(polls: seq<Poll>, got: seq<seq<RmtItem>>, i: nat, end: nat)
    requires i < |polls| && polls[i].now < end && DeliveredSoFar(polls, got, i, end)
    ensures polls[i].items.Some? ==> DeliveredSoFar(polls, got + [polls[i].items.value], i + 1, end)
    ensures polls[i].items.None? ==> DeliveredSoFar(polls, got, i + 1, end)
  {
    DeliveredNext(polls, i, end);
    hide Delivered;
    var rest := Delivered(polls[i + 1..], end);
    if polls[i].items.Some? {
      assert got + ([polls[i].items.value] + rest) == got + [polls[i].items.value] + rest;
    } else {
      assert [] + rest == rest;
    }
  }

  lemma DeliveredEnds(polls: seq<Poll>, got: seq<seq<RmtItem>>, i: nat, end: nat)
    requires i <= |polls| && (i < |polls| ==> polls[i].now >= end) && DeliveredSoFar(polls, got, i, end)
    ensures Delivered(polls, end) == got
  {
    DeliveredNone(polls[i..], end);
    hide Delivered;
    assert got + [] == got;
  }

  lemma DeliveredNext(polls: seq<Poll>, i: nat, end: nat)
    requires i < |polls| && polls[i].now < end
    ensures Delivered(polls[i..], end)
      == (if polls[i].items.Some? then [polls[i].items.value] else []) + Delivered(polls[i + 1..], end)
  {
    assert polls[i..][1..] == polls[i + 1..];
  }

  lemma DeliveredNone(polls: seq<Poll>, end: nat)
    requires polls == [] || polls[0].now >= end
    ensures Delivered(polls, end) == []
  {
  }

  lemma JoinedSnoc(batches: seq<seq<RmtItem>>, items: seq<RmtItem>)
    ensures JoinedBatches(batches + [items]) == JoinedBatches(batches) + Halves(items)
  {
    assert (batches + [items])[..|batches|] == batches;
  }

  lemma BatchUnpacked(got: seq<seq<RmtItem>>, items: seq<RmtItem>, max: nat)
    ensures Cut(Cut(Seen(JoinedBatches(got)), max) + Seen(Halves(items)), max)
         == Cut(Seen(JoinedBatches(got + [items])), max)
  {
    hide Halves, Seen, Cut, JoinedBatches;
    JoinedSnoc(got, items);
    CutSeenMore(JoinedBatches(got), Halves(items), max);
  }

  lemma CutSeenMore(a: seq<Edge>, b: seq<Edge>, max: nat)
    ensures Cut(Cut(Seen(a), max) + Seen(b), max) == Cut(Seen(a + b), max)
  {
    CutSeen([], a, b, max);
    assert [] + Seen(a) == Seen(a) && [] + Seen(a + b) == Seen(a + b);
  }

  /** The end of the window, kept in 32 bits; the time it is compared with has 64. */
  function WindowEnd(start: nat, total: nat): nat { (start + total) % U32 }

  /** The window is open exactly while it was meant to be, as long as its end fits 32 bits; otherwise it
      never opens. */
  lemma WindowOpens(start: nat, total: nat, now: nat)
    requires start <= now && total < U32
    ensures now < WindowEnd(start, total) <==> start + total < U32 && now < start + total
  {
    var end := start + total;
    if end >= U32 {
      assert end % U32 <= end - U32;
    }
  }

  /** So a reception gets what arrives before its end, or nothing at all: from 2^32 us of uptime on, less
      the length of the window, every capture is empty. */
  lemma {:induction false} WindowDelivers(polls: seq<Poll>, start: nat, total: nat)
    requires total < U32 && forall k :: 0 <= k < |polls| ==> start <= polls[k].now
    ensures Delivered(polls, WindowEnd(start, total))
      == if start + total < U32 then Delivered(polls, start + total) else []
  {
    if polls != [] {
      WindowOpens(start, total, polls[0].now);
      WindowDelivers(polls[1..], start, total);
    }
  }

  // ---- From transmission to reception ------------------------------------------------------------------

  /** The batches a transmission puts on the air, without the gaps. */
  function OnAir(ops: seq<Op>): seq<seq<RmtItem>> {
    if ops == [] then []
    else
      var last := ops[|ops| - 1];
      OnAir(ops[..|ops| - 1]) + (match last case Write(items) => [items] case Gap(_) => [])
  }

  function RepeatEdges(edges: seq<Edge>, count: nat): seq<Edge> {
    if count == 0 then [] else edges + RepeatEdges(edges, count - 1)
  }

  lemma {:induction false} OnAirConcat(a: seq<Op>, b: seq<Op>)
    ensures OnAir(a + b) == OnAir(a) + OnAir(b)
  {
    if b == [] {
      assert a + b == a;
    } else {
      assert (a + b)[..|a + b| - 1] == a + b[..|b| - 1];
      OnAirConcat(a, b[..|b| - 1]);
    }
  }

  lemma {:induction false} OnAirWrites(chunks: seq<seq<RmtItem>>)
    ensures OnAir(Writes(chunks)) == chunks
  {
    if chunks != [] {
      OnAirWrites(chunks[..|chunks| - 1]);
      assert Writes(chunks)[..|chunks| - 1] == Writes(chunks[..|chunks| - 1]);
    }
  }

  lemma {:induction false} BatchesConcat(a: seq<seq<RmtItem>>, b: seq<seq<RmtItem>>)
    ensures JoinedBatches(a + b) == JoinedBatches(a) + JoinedBatches(b)
  {
    hide Halves;
    if b == [] {
      assert a + b == a;
    } else {
      assert (a + b)[..|a + b| - 1] == a + b[..|b| - 1];
      BatchesConcat(a, b[..|b| - 1]);
    }
  }

  lemma HalvesConcat(a: seq<RmtItem>, b: seq<RmtItem>)
    ensures Halves(a + b) == Halves(a) + Halves(b)
  {
  }

  lemma {:induction false} BatchesAreJoined(chunks: seq<seq<RmtItem>>)
    ensures JoinedBatches(chunks) == Halves(Joined(chunks))
  {
    if chunks == [] {
    } else {
      hide Halves;
      BatchesAreJoined(chunks[1..]);
      assert chunks == [chunks[0]] + chunks[1..];
      BatchesConcat([chunks[0]], chunks[1..]);
      assert JoinedBatches([chunks[0]]) == Halves(chunks[0]) by {
        assert [chunks[0]][..0] == [];
      }
      HalvesConcat(chunks[0], Joined(chunks[1..]));
    }
  }

  /** What one repetition puts on the air is the edges it was given, and an odd list's pad is not seen. */
  lemma OnceSeen(edges: seq<Edge>, m: nat)
    requires m > 0 && forall i :: 0 <= i < |edges| ==> EdgeAccepted(edges[i])
    ensures Seen(JoinedBatches(Chunks(edges, m))) == edges
  {
    hide Chunks, Halves, Packed;
    BatchesAreJoined(Chunks(edges, m));
    ChunksJoin(edges, m);
    PackedHalves(edges);
    assert StoredAll(edges) == edges;
    SeenAll(edges);
    if |edges| % 2 == 1 {
      SeenSnoc(edges, PAD);
    } else {
      assert edges + [] == edges;
    }
  }

  /** The signal survives the whole way: from any admissible edge list, what the transmission plays and a
      receiver with the same items unpacks is the list repeated, cut to the number of edges asked for. */
  lemma {:induction false} TransmissionIsHeard(edges: seq<Edge>, m: nat, count: nat, gap: nat)
    requires m > 0 && forall i :: 0 <= i < |edges| ==> EdgeAccepted(edges[i])
    ensures Seen(JoinedBatches(OnAir(Repeated(Chunks(edges, m), count, gap)))) == RepeatEdges(edges, count)
  {
    if count > 0 {
      hide Seen, JoinedBatches, Chunks, Writes;
      var chunks := Chunks(edges, m);
      var pause := if count > 1 && gap > 0 then [Gap(gap)] else [];
      TransmissionIsHeard(edges, m, count - 1, gap);
      OnAirConcat(Writes(chunks) + pause, Repeated(chunks, count - 1, gap));
      OnAirConcat(Writes(chunks), pause);
      OnAirWrites(chunks);
      assert OnAir(pause) == [] by { assert pause != [] ==> pause[..0] == []; }
      assert OnAir(Writes(chunks) + pause) == chunks;
      BatchesConcat(chunks, OnAir(Repeated(chunks, count - 1, gap)));
      SeenConcat(JoinedBatches(chunks), JoinedBatches(OnAir(Repeated(chunks, count - 1, gap))));
      OnceSeen(edges, m);
    } else {
      assert OnAir([]) == [] && JoinedBatches([]) == [];
    }
  }

  // ---- Repetitions and gaps --------------------------------------------------------------------------------

  /** What a receiver hears of these operations. */
  function Heard(ops: seq<Op>): seq<Edge> { Seen(JoinedBatches(OnAir(ops))) }

  function GapCount(ops: seq<Op>): nat {
    if ops == [] then 0 else GapCount(ops[..|ops| - 1]) + if ops[|ops| - 1].Gap? then 1 else 0
  }

  /** The operations play the edges `count` times over: edge by edge what is heard is the list repeated; each
      gap has the length asked for and comes between two repetitions, after as many of them as it is the
      k-th gap; and there is one between any two, unless its length is 0. */
  ghost predicate PlaysTimes(ops: seq<Op>, edges: seq<Edge>, count: nat, gap: nat) {
    && |Heard(ops)| == |edges| * count
    && (forall k :: 0 <= k < |Heard(ops)| ==> edges != [] && Heard(ops)[k] == Cyclic(edges, k))
    && GapCount(ops) == (if count > 0 && gap > 0 then count - 1 else 0)
    && forall p :: 0 <= p < |ops| && ops[p].Gap? ==>
         ops[p].us == gap && gap > 0 && |Heard(ops[..p])| == |edges| * (GapCount(ops[..p]) + 1)
  }

  /** The k-th edge of a list repeated without end. */
  function Cyclic(edges: seq<Edge>, k: nat): Edge
    requires edges != []
  {
    edges[k % |edges|]
  }

  lemma CyclicStep(edges: seq<Edge>, k: nat)
    requires edges != []
    ensures k < |edges| ==> Cyclic(edges, k) == edges[k]
    ensures k >= |edges| ==> Cyclic(edges, k) == Cyclic(edges, k - |edges|)
  {
    if k >= |edges| {
      ModStep(k, |edges|);
    }
  }

  lemma {:induction false} RepeatEdgesAt(edges: seq<Edge>, count: nat, k: nat)
    requires k < |RepeatEdges(edges, count)|
    ensures edges != [] && RepeatEdges(edges, count)[k] == Cyclic(edges, k)
  {
    hide Cyclic;
    if count > 0 {
      if k >= |edges| {
        RepeatEdgesAt(edges, count - 1, k - |edges|);
      }
      CyclicStep(edges, k);
    }
  }

  lemma ModStep(k: nat, n: nat)
    requires 0 < n <= k
    ensures k % n == (k - n) % n
  {
    DivMod(k - n, n);
    MulDistribute((k - n) / n, 1, n);
    DivUnique(k, n, (k - n) / n + 1, (k - n) % n);
  }

  lemma {:induction false} RepeatEdgesLength(edges: seq<Edge>, count: nat)
    ensures |RepeatEdges(edges, count)| == |edges| * count
  {
    if count > 0 {
      RepeatEdgesLength(edges, count - 1);
    }
  }

  lemma {:induction false} GapCountConcat(a: seq<Op>, b: seq<Op>)
    ensures GapCount(a + b) == GapCount(a) + GapCount(b)
  {
    if b == [] {
      assert a + b == a;
    } else {
      assert (a + b)[..|a + b| - 1] == a + b[..|b| - 1];
      GapCountConcat(a, b[..|b| - 1]);
    }
  }

  lemma {:induction false} HeardConcat(a: seq<Op>, b: seq<Op>)
    ensures Heard(a + b) == Heard(a) + Heard(b)
  {
    hide Seen, JoinedBatches, OnAir;
    OnAirConcat(a, b);
    BatchesConcat(OnAir(a), OnAir(b));
    SeenConcat(JoinedBatches(OnAir(a)), JoinedBatches(OnAir(b)));
  }

  lemma {:induction false} WritesHaveNoGaps(chunks: seq<seq<RmtItem>>)
    ensures GapCount(Writes(chunks)) == 0
  {
    if chunks != [] {
      WritesHaveNoGaps(chunks[..|chunks| - 1]);
      assert Writes(chunks)[..|chunks| - 1] == Writes(chunks[..|chunks| - 1]);
    }
  }

  /** The pause after a repetition that is not the last. */
  function Pause(count: nat, gap: nat): seq<Op> { if count > 1 && gap > 0 then [Gap(gap)] else [] }

  lemma PauseIs(count: nat, gap: nat)
    ensures Heard(Pause(count, gap)) == [] && GapCount(Pause(count, gap)) == if count > 1 && gap > 0 then 1 else 0
  {
    assert [Gap(gap)][..0] == [];
    assert OnAir([Gap(gap)]) == [] && OnAir([]) == [] && JoinedBatches([]) == [] && GapCount([]) == 0;
  }

  lemma RepeatedStep(chunks: seq<seq<RmtItem>>, count: nat, gap: nat)
    requires count > 0
    ensures Repeated(chunks, count, gap) == Writes(chunks) + Pause(count, gap) + Repeated(chunks, count - 1, gap)
  {
  }

  lemma {:induction false} RepeatedGapCount(chunks: seq<seq<RmtItem>>, count: nat, gap: nat)
    ensures GapCount(Repeated(chunks, count, gap)) == if count > 0 && gap > 0 then count - 1 else 0
  {
    if count == 0 {
      assert Repeated(chunks, 0, gap) == [] && GapCount([]) == 0;
    } else {
      RepeatedGapCount(chunks, count - 1, gap);
      RepeatedStep(chunks, count, gap);
      WritesHaveNoGaps(chunks);
      PauseIs(count, gap);
      GapCountConcat(Writes(chunks) + Pause(count, gap), Repeated(chunks, count - 1, gap));
      GapCountConcat(Writes(chunks), Pause(count, gap));
      hide GapCount, Writes, Repeated, Pause;
    }
  }

  /** Before position `p` whole repetitions have been played, one more than gaps. */
  ghost predicate GapAfterWhole(ops: seq<Op>, p: nat, n: nat, gap: nat)
    requires p < |ops|
  {
    ops[p].Gap? ==> ops[p].us == gap && gap > 0 && |Heard(ops[..p])| == n * (GapCount(ops[..p]) + 1)
  }

  /** The same behind a repetition and its pause. */
  lemma GapBehind(first: seq<Op>, rest: seq<Op>, p: nat, n: nat, gap: nat)
    requires p < |rest| && GapAfterWhole(rest, p, n, gap)
    requires |Heard(first)| == n && (gap > 0 ==> GapCount(first) == 1)
    ensures GapAfterWhole(first + rest, |first| + p, n, gap)
  {
    hide Heard, GapCount;
    assert (first + rest)[..|first| + p] == first + rest[..p];
    GapCountConcat(first, rest[..p]);
    HeardConcat(first, rest[..p]);
    MulNext(n, GapCount(rest[..p]) + 1);
  }

  lemma {:induction false} RepeatedGaps(chunks: seq<seq<RmtItem>>, n: nat, count: nat, gap: nat, p: nat)
    requires |Heard(Writes(chunks))| == n && p < |Repeated(chunks, count, gap)|
    ensures GapAfterWhole(Repeated(chunks, count, gap), p, n, gap)
  {
    hide Heard, GapCount, Writes, Repeated, GapAfterWhole;
    RepeatedSome(chunks, count, gap);
    var first, pause, rest := Writes(chunks), Pause(count, gap), Repeated(chunks, count - 1, gap);
    var at := |first + pause|;
    RepeatedStep(chunks, count, gap);
    WritesHaveNoGaps(chunks);
    if p < at {
      GapInFirst(chunks, n, count, gap, rest, p);
    } else {
      PauseOrNothing(chunks, count, gap, p - at);
      RepeatedGaps(chunks, n, count - 1, gap, p - at);
      PauseIs(count, gap);
      GapCountConcat(first, pause);
      HeardConcat(first, pause);
      GapBehind(first + pause, rest, p - at, n, gap);
    }
  }

  lemma RepeatedSome(chunks: seq<seq<RmtItem>>, count: nat, gap: nat)
    ensures Repeated(chunks, count, gap) != [] ==> count > 0
  {
  }

  lemma GapInFirst(chunks: seq<seq<RmtItem>>, n: nat, count: nat, gap: nat, rest: seq<Op>, p: nat)
    requires |Heard(Writes(chunks))| == n && GapCount(Writes(chunks)) == 0
    requires p < |Writes(chunks) + Pause(count, gap)|
    ensures GapAfterWhole(Writes(chunks) + Pause(count, gap) + rest, p, n, gap)
  {
    hide Heard, GapCount;
    var ops := Writes(chunks) + Pause(count, gap) + rest;
    if p < |Writes(chunks)| {
      NoGapAmongWrites(chunks, p);
    } else {
      assert ops[..p] == Writes(chunks);
    }
  }

  lemma NoGapAmongWrites(chunks: seq<seq<RmtItem>>, p: nat)
    requires p < |Writes(chunks)|
    ensures Writes(chunks)[p].Write?
  {
  }

  /** Behind a last repetition there is nothing. */
  lemma PauseOrNothing(chunks: seq<seq<RmtItem>>, count: nat, gap: nat, p: nat)
    requires count > 0 && p < |Repeated(chunks, count - 1, gap)|
    ensures count > 1
  {
  }

  lemma MulNext(n: nat, g: nat)
    ensures n * g + n == n * (g + 1)
  {
  }

  lemma {:induction false} TransmissionHeard(edges: seq<Edge>, count: nat, gap: nat)
    requires forall i :: 0 <= i < |edges| ==> EdgeAccepted(edges[i])
    ensures Heard(Transmission(edges, count, gap)) == RepeatEdges(edges, count)
    ensures Heard(Writes(Chunks(edges, ChunkSize(|edges|)))) == edges
  {
    hide Chunks, Repeated, RepeatEdges, ChunkSize, Seen, JoinedBatches, OnAir, Writes;
    TransmissionIsHeard(edges, ChunkSize(|edges|), count, gap);
    OnceSeen(edges, ChunkSize(|edges|));
    OnAirWrites(Chunks(edges, ChunkSize(|edges|)));
  }

  /** A transmission plays its edges as often as it says. */
  lemma {:induction false} TransmissionPlays(edges: seq<Edge>, count: nat, gap: nat)
    requires forall i :: 0 <= i < |edges| ==> EdgeAccepted(edges[i])
    ensures PlaysTimes(Transmission(edges, count, gap), edges, count, gap)
  {
    hide Heard, Chunks, Repeated, RepeatEdges, GapCount, ChunkSize;
    var chunks, ops := Chunks(edges, ChunkSize(|edges|)), Transmission(edges, count, gap);
    TransmissionHeard(edges, count, gap);
    RepeatEdgesLength(edges, count);
    forall k | 0 <= k < |Heard(ops)| ensures edges != [] && Heard(ops)[k] == Cyclic(edges, k) {
      RepeatEdgesAt(edges, count, k);
    }
    RepeatedGapCount(chunks, count, gap);
    forall p | 0 <= p < |ops| && ops[p].Gap?
      ensures ops[p].us == gap && gap > 0 && |Heard(ops[..p])| == |edges| * (GapCount(ops[..p]) + 1)
    {
      RepeatedGaps(chunks, |edges|, count, gap, p);
    }
  }

  // ---- Air time --------------------------------------------------------------------------------------------

  function AirTime(ops: seq<Op>): int {
    if ops == [] then 0
    else
      var last := ops[|ops| - 1];
      AirTime(ops[..|ops| - 1]) + (match last case Write(items) => Duration(Halves(items)) case Gap(us) => us)
  }

  lemma {:induction false} AirTimeConcat(a: seq<Op>, b: seq<Op>)
    ensures AirTime(a + b) == AirTime(a) + AirTime(b)
  {
    if b == [] {
      assert a + b == a;
    } else {
      assert (a + b)[..|a + b| - 1] == a + b[..|b| - 1];
      AirTimeConcat(a, b[..|b| - 1]);
    }
  }

  lemma {:induction false} AirTimeWrites(chunks: seq<seq<RmtItem>>)
    ensures AirTime(Writes(chunks)) == Duration(JoinedBatches(chunks))
  {
    if chunks != [] {
      hide Halves;
      var init, last := chunks[..|chunks| - 1], chunks[|chunks| - 1];
      AirTimeWrites(init);
      assert Writes(chunks)[..|chunks| - 1] == Writes(init);
      DurationConcat(JoinedBatches(init), Halves(last));
    }
  }

  lemma ChunksDuration(edges: seq<Edge>, m: nat)
    requires m > 0 && forall i :: 0 <= i < |edges| ==> EdgeAccepted(edges[i])
    ensures Duration(JoinedBatches(Chunks(edges, m))) == Duration(edges)
  {
    hide Chunks, Halves, Packed, Seen;
    BatchesAreJoined(Chunks(edges, m));
    ChunksJoin(edges, m);
    PackedHalves(edges);
    assert StoredAll(edges) == edges;
    var pad := if |edges| % 2 == 1 then [PAD] else [];
    DurationConcat(edges, pad);
    assert pad != [] ==> pad[1..] == [];
  }

  /** The time a transmission is on the air is the total duration that admission checked. */
  lemma {:induction false} AirTimeIsTotal(edges: seq<Edge>, m: nat, count: nat, gap: nat)
    requires m > 0 && count > 0 && forall i :: 0 <= i < |edges| ==> EdgeAccepted(edges[i])
    ensures AirTime(Repeated(Chunks(edges, m), count, gap)) == TotalDuration(edges, count, gap)
  {
    hide Chunks, Writes, AirTime, JoinedBatches, Duration;
    var chunks := Chunks(edges, m);
    AirTimeWrites(chunks);
    ChunksDuration(edges, m);
    AirTimeGap(gap);
    var rest := Repeated(chunks, count - 1, gap);
    AirTimeConcat(Writes(chunks) + (if count > 1 && gap > 0 then [Gap(gap)] else []), rest);
    AirTimeConcat(Writes(chunks), if count > 1 && gap > 0 then [Gap(gap)] else []);
    if count > 1 {
      AirTimeIsTotal(edges, m, count - 1, gap);
      MulStep(Duration(edges), gap, count);
    } else {
      assert rest == [];
    }
  }

  lemma AirTimeGap(gap: nat)
    ensures AirTime([Gap(gap)]) == gap && AirTime([]) == 0
  {
    assert [Gap(gap)][..0] == [];
  }

  lemma MulStep(d: int, gap: int, count: int)
    ensures d * count + gap * (count - 1) == d + gap + (d * (count - 1) + gap * (count - 2))
  {
  }

  /** The signal survives the whole way: for an admissible signal the driver accepts, the items written are
      on the air for exactly the time admission checked. What `Receive` captures in a window in which these
      items arrive, in whatever batches, is the edges repeated, cut to the number it asked for. */
  lemma SignalSurvives(edges: seq<Edge>, count: nat, gap: nat, ops: seq<Op>, ok: nat -> bool,
                       polls: seq<Poll>, end: nat, max: nat)
    requires count > 0 && forall i :: 0 <= i < |edges| ==> EdgeAccepted(edges[i])
    requires Attempt(ops, Transmission(edges, count, gap), ok, 0, false)
    ensures AirTime(ops) == TotalDuration(edges, count, gap)
    ensures Joined(Delivered(polls, end)) == Joined(OnAir(ops)) ==>
              Cut(Seen(JoinedBatches(Delivered(polls, end))), max) == Cut(RepeatEdges(edges, count), max)
  {
    BatchesAreJoined(Delivered(polls, end));
    BatchesAreJoined(OnAir(ops));
    AirTimeIsTotal(edges, ChunkSize(|edges|), count, gap);
    TransmissionIsHeard(edges, ChunkSize(|edges|), count, gap);
  }
}
