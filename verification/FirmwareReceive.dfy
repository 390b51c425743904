/** The firmware's receive loop over its fixed buffer (src/tcp_client.c). */
module FirmwareReceive {
  import opened Wire
  import opened Framing
  import opened TailDrop

  const MAX_COMMAND := 8192

  /** MAX_PAYLOAD_SIZE + sizeof(msg_frame_t). */
  const RX_BUF_SIZE := MAX_COMMAND + HEADER_SIZE

  datatype Scan = Scan(frames: seq<seq<byte>>, rest: seq<byte>)

  /** One pass over the buffered bytes: complete frames are taken, a header that states too long a
      payload drops everything that is buffered. */
  function ScanBuffer(buffer: seq<byte>): Scan
    decreases |buffer|
  {
    if |buffer| < HEADER_SIZE then Scan([], buffer)
    else
      var length := LengthField(buffer);
      if length > MAX_COMMAND then Scan([], [])
      else if |buffer| < HEADER_SIZE + length then Scan([], buffer)
      else
        var s := ScanBuffer(buffer[HEADER_SIZE + length..]);
        Scan([buffer[..HEADER_SIZE + length]] + s.frames, s.rest)
  }

  /** The frames for which `malloc` found room; `first` numbers the first of them. */
  function Kept(frames: seq<seq<byte>>, first: nat, malloc: nat -> bool): seq<seq<byte>> {
    if frames == [] then []
    else
      var n := |frames| - 1;
      Kept(frames[..n], first, malloc) + (if malloc(first + n) then [frames[n]] else [])
  }

  class TcpClient {
    const rxBuf: array<byte>
    var bufferedLen: nat
    var seen: nat
    var cmdQueue: seq<seq<byte>>

    /** The buffer is never full between two calls of `recv`. */
    ghost predicate Valid()
      reads this, rxBuf
    {
      rxBuf.Length == RX_BUF_SIZE && bufferedLen < RX_BUF_SIZE && |cmdQueue| <= CAPACITY
    }

    ghost function Buffered(): seq<byte>
      requires bufferedLen <= rxBuf.Length
      reads this, rxBuf
    {
      rxBuf[..bufferedLen]
    }

    constructor ()
      ensures Valid() && Buffered() == [] && cmdQueue == [] && fresh(rxBuf)
    {
      rxBuf := new byte[RX_BUF_SIZE];
      bufferedLen, seen, cmdQueue := 0, 0, [];
    }

    /** Queue a command; when the queue is full the oldest one is discarded first. */
    method Enqueue(frame: seq<byte>)
      requires |cmdQueue| <= CAPACITY
      modifies this`cmdQueue
      ensures cmdQueue == Offer(old(cmdQueue), frame) && |cmdQueue| <= CAPACITY
    {
      if |cmdQueue| < CAPACITY {
        cmdQueue := cmdQueue + [frame];
      } else {
        cmdQueue := cmdQueue[1..];
        cmdQueue := cmdQueue + [frame];
      }
    }

    /** The parse loop: hand on every complete frame and tell how many bytes they took; an oversize
        header drops the buffer. */
    method ParseFrames(malloc: nat -> bool) returns (offset: nat)
      requires rxBuf.Length == RX_BUF_SIZE && bufferedLen <= RX_BUF_SIZE && |cmdQueue| <= CAPACITY
      modifies this
      ensures |cmdQueue| <= CAPACITY
      ensures var s := ScanBuffer(old(Buffered()));
        && cmdQueue == OfferAll(old(cmdQueue), Kept(s.frames, old(seen), malloc))
        && seen == old(seen) + |s.frames|
        && offset <= bufferedLen <= old(bufferedLen) && rxBuf[offset..bufferedLen] == s.rest
    {
      hide ScanBuffer, Kept, OfferAll, LengthField;
      ghost var all := Buffered();
      ghost var frames: seq<seq<byte>> := [];
      offset := 0;
      assert all[0..] == all && Kept([], seen, malloc) == [] && OfferAll(cmdQueue, []) == cmdQueue by {
        NothingKept(cmdQueue, seen, malloc);
      }
      while bufferedLen - offset >= HEADER_SIZE
        invariant offset <= bufferedLen == old(bufferedLen)
        invariant rxBuf[..bufferedLen] == all
        invariant |cmdQueue| <= CAPACITY
        invariant ScanBuffer(all).frames == frames + ScanBuffer(all[offset..]).frames
        invariant ScanBuffer(all).rest == ScanBuffer(all[offset..]).rest
        invariant seen == old(seen) + |frames|
        invariant cmdQueue == OfferAll(old(cmdQueue), Kept(frames, old(seen), malloc))
        decreases bufferedLen - offset
      {
        assert rxBuf[offset..bufferedLen] == all[offset..];
        var length := LengthField(rxBuf[offset..bufferedLen]);
        var expectedSize := HEADER_SIZE + length;
        ScanStep(all, offset, frames);
        if length > MAX_COMMAND {
          bufferedLen := 0;
          offset := 0;
          return;
        }
        if bufferedLen - offset < expectedSize {
          break;
        }
        var image := rxBuf[offset..offset + expectedSize];
        PartOfPrefix(rxBuf[..], bufferedLen, offset, offset + expectedSize);
        assert image == all[offset..offset + expectedSize];
        KeptSnoc(frames, image, old(seen), malloc);
        if malloc(seen) {
          OfferAllSnoc(old(cmdQueue), Kept(frames, old(seen), malloc), image);
          Enqueue(image);
        } else {
          assert Kept(frames, old(seen), malloc) + [] == Kept(frames, old(seen), malloc);
        }
        seen := seen + 1;
        frames := frames + [image];
        offset := offset + expectedSize;
      }
      assert rxBuf[offset..bufferedLen] == all[offset..];
      ScanStep(all, offset, frames);
    }

    /** `memmove` of the unparsed bytes to the front, byte by byte upwards, which is safe where the two
        ranges overlap. */
    method Compact(offset: nat)
      requires rxBuf.Length == RX_BUF_SIZE && offset <= bufferedLen <= RX_BUF_SIZE
      modifies this`bufferedLen, rxBuf
      ensures bufferedLen == old(bufferedLen) - offset
      ensures rxBuf[..bufferedLen] == old(rxBuf[offset..bufferedLen])
    {
      if offset > 0 {
        var n := bufferedLen - offset;
        if offset < bufferedLen {
          for i := 0 to n
            invariant bufferedLen == old(bufferedLen)
            invariant forall k :: 0 <= k < i ==> rxBuf[k] == old(rxBuf[offset + k])
            invariant forall k :: i <= k < RX_BUF_SIZE ==> rxBuf[k] == old(rxBuf[k])
          {
            rxBuf[i] := rxBuf[offset + i];
          }
        }
        bufferedLen := n;
      }
    }

    /** One turn of the receive loop that got data: `recv` fills at most the free part of the buffer. */
    method Receive(chunk: seq<byte>, malloc: nat -> bool)
      requires Valid() && 0 < |chunk| <= RX_BUF_SIZE - bufferedLen
      modifies this, rxBuf
      ensures Valid()
      ensures var s := ScanBuffer(old(Buffered()) + chunk);
        && Buffered() == s.rest
        && seen == old(seen) + |s.frames|
        && cmdQueue == OfferAll(old(cmdQueue), Kept(s.frames, old(seen), malloc))
    {
      if bufferedLen >= RX_BUF_SIZE {
        assert false; // the overflow reset: never reached
      }
      ghost var before := Buffered();
      for i := 0 to |chunk|
        invariant bufferedLen == old(bufferedLen) && seen == old(seen) && cmdQueue == old(cmdQueue)
        invariant rxBuf[..bufferedLen] == before
        invariant rxBuf[bufferedLen..bufferedLen + i] == chunk[..i]
      {
        rxBuf[bufferedLen + i] := chunk[i];
      }
      assert rxBuf[..bufferedLen + |chunk|] == before + chunk;
      bufferedLen := bufferedLen + |chunk|;
      var offset := ParseFrames(malloc);
      RestBounded(before + chunk);
      Compact(offset);
    }

    /** One connection: the buffer starts empty and takes chunk after chunk. */
    method ReceiveAll(chunks: seq<seq<byte>>, malloc: nat -> bool)
      requires Valid() && Receivable(chunks)
      modifies this, rxBuf
      ensures Valid()
      ensures var s := Run(chunks);
        && Buffered() == s.rest
        && seen == old(seen) + |s.frames|
        && cmdQueue == OfferAll(old(cmdQueue), Kept(s.frames, old(seen), malloc))
    {
      hide ScanBuffer, Kept, OfferAll;
      bufferedLen := 0;
      NothingKept(cmdQueue, seen, malloc);
      for i := 0 to |chunks|
        invariant Valid()
        invariant Buffered() == Run(chunks[..i]).rest
        invariant seen == old(seen) + |Run(chunks[..i]).frames|
        invariant cmdQueue == OfferAll(old(cmdQueue), Kept(Run(chunks[..i]).frames, old(seen), malloc))
      {
        assert chunks[..i + 1][..i] == chunks[..i];
        ReceivablePrefix(chunks, i + 1);
        ghost var s := Run(chunks[..i]);
        ghost var t := ScanBuffer(s.rest + chunks[i]);
        Receive(chunks[i], malloc);
        KeptConcat(s.frames, t.frames, old(seen), malloc);
        OfferAllConcat(old(cmdQueue),
          Kept(s.frames, old(seen), malloc), Kept(t.frames, old(seen) + |s.frames|, malloc));
      }
      assert chunks[..|chunks|] == chunks;
    }
  }

  // ---- Properties --------------------------------------------------------------------------------------

  /** What the scan of the bytes from `offset` on does next. */
  lemma ScanStep(all: seq<byte>, offset: nat, frames: seq<seq<byte>>)
    requires offset <= |all|
    ensures var tail := all[offset..];
            var s := ScanBuffer(tail);
      if |tail| < HEADER_SIZE then frames + s.frames == frames && s.rest == tail
      else if LengthField(tail) > MAX_COMMAND then frames + s.frames == frames && s.rest == []
      else
        var end := offset + HEADER_SIZE + LengthField(tail);
        if end > |all| then frames + s.frames == frames && s.rest == tail
        else (frames + s.frames == frames + [all[offset..end]] + ScanBuffer(all[end..]).frames
              && s.rest == ScanBuffer(all[end..]).rest)
  {
    assert frames + [] == frames;
    var tail := all[offset..];
    if |tail| >= HEADER_SIZE && offset + HEADER_SIZE + LengthField(tail) <= |all| {
      var total := HEADER_SIZE + LengthField(tail);
      assert tail[total..] == all[offset + total..] && tail[..total] == all[offset..offset + total];
    }
  }

  lemma PartOfPrefix(bytes: seq<byte>, n: nat, x: nat, y: nat)
    requires x <= y <= n <= |bytes|
    ensures bytes[..n][x..y] == bytes[x..y]
  {
  }

  lemma NothingKept(queue: seq<seq<byte>>, first: nat, malloc: nat -> bool)
    ensures Kept([], first, malloc) == [] && OfferAll(queue, []) == queue
  {
  }

  lemma KeptSnoc(frames: seq<seq<byte>>, frame: seq<byte>, first: nat, malloc: nat -> bool)
    ensures Kept(frames + [frame], first, malloc)
         == Kept(frames, first, malloc) + (if malloc(first + |frames|) then [frame] else [])
  {
    assert (frames + [frame])[..|frames|] == frames;
  }

  lemma OfferAllSnoc<T>(queue: seq<T>, xs: seq<T>, x: T)
    ensures OfferAll(queue, xs + [x]) == Offer(OfferAll(queue, xs), x)
  {
    assert (xs + [x])[..|xs|] == xs;
  }

  /** After a scan fewer bytes are left than the buffer holds, so there is always room to receive into. */
  lemma {:induction false} RestBounded(buffer: seq<byte>)
    ensures |ScanBuffer(buffer).rest| < RX_BUF_SIZE
    decreases |buffer|
  {
    if |buffer| >= HEADER_SIZE && LengthField(buffer) <= MAX_COMMAND && |buffer| >= HEADER_SIZE + LengthField(buffer) {
      RestBounded(buffer[HEADER_SIZE + LengthField(buffer)..]);
    }
  }

  /** Nothing follows the first header, if any, that states too long a payload. */
  ghost predicate NothingBehind(buffer: seq<byte>)
    decreases |buffer|
  {
    |buffer| >= HEADER_SIZE ==>
      var total := HEADER_SIZE + LengthField(buffer);
      if LengthField(buffer) > MAX_COMMAND then |buffer| == HEADER_SIZE
      else |buffer| >= total ==> NothingBehind(buffer[total..])
  }

  lemma {:induction false} ScanAppend(a: seq<byte>, b: seq<byte>)
    requires NothingBehind(a + b)
    ensures NothingBehind(a) && NothingBehind(ScanBuffer(a).rest + b)
    ensures var s := ScanBuffer(a);
            var t := ScanBuffer(s.rest + b);
            ScanBuffer(a + b) == Scan(s.frames + t.frames, t.rest)
    decreases |a|
  {
    if |a| >= HEADER_SIZE {
      SameHeader(a, b);
      hide LengthField;
      var total := HEADER_SIZE + LengthField(a);
      if LengthField(a) > MAX_COMMAND {
        assert b == [] && a + b == a;
      } else if |a| >= total {
        CutAppend(a, b, total);
        ScanAppend(a[total..], b);
      }
    }
  }

  lemma SameHeader(a: seq<byte>, b: seq<byte>)
    requires |a| >= HEADER_SIZE
    ensures LengthField(a + b) == LengthField(a)
  {
    assert (a + b)[2..4] == a[2..4];
  }

  lemma CutAppend(a: seq<byte>, b: seq<byte>, k: nat)
    requires k <= |a|
    ensures (a + b)[k..] == a[k..] + b && (a + b)[..k] == a[..k]
  {
  }

  /** The buffer and the frames handed on after a run of receive calls. */
  function Run(chunks: seq<seq<byte>>): Scan {
    if chunks == [] then Scan([], [])
    else
      var s := Run(chunks[..|chunks| - 1]);
      var t := ScanBuffer(s.rest + chunks[|chunks| - 1]);
      Scan(s.frames + t.frames, t.rest)
  }

  /** Each chunk is what one `recv` can return: some bytes, and no more than there is room for. */
  ghost predicate Receivable(chunks: seq<seq<byte>>) {
    chunks != [] ==>
      var n := |chunks| - 1;
      Receivable(chunks[..n]) && 0 < |chunks[n]| <= RX_BUF_SIZE - |Run(chunks[..n]).rest|
  }

  lemma {:induction false} ReceivablePrefix(chunks: seq<seq<byte>>, i: nat)
    requires Receivable(chunks) && i <= |chunks|
    ensures Receivable(chunks[..i])
    decreases |chunks|
  {
    if i == |chunks| {
      assert chunks[..i] == chunks;
    } else {
      ReceivablePrefix(chunks[..|chunks| - 1], i);
      assert chunks[..|chunks| - 1][..i] == chunks[..i];
    }
  }

  /** Chunk after chunk there is room for at least one more byte, whatever arrives. */
  lemma RunLeavesRoom(chunks: seq<seq<byte>>)
    ensures |Run(chunks).rest| < RX_BUF_SIZE
  {
    if chunks != [] {
      RestBounded(Run(chunks[..|chunks| - 1]).rest + chunks[|chunks| - 1]);
    }
  }

  /** Where nothing follows an oversize header the outcome does not depend on the chunking. */
  lemma {:induction false} RunIsScan(chunks: seq<seq<byte>>)
    requires NothingBehind(Concat(chunks))
    ensures Run(chunks) == ScanBuffer(Concat(chunks))
  {
    if chunks != [] {
      var n := |chunks| - 1;
      ScanAppend(Concat(chunks[..n]), chunks[n]);
      RunIsScan(chunks[..n]);
    }
  }

  // ---- Behind an oversize header -------------------------------------------------------------------------

  /** The stream byte by byte. */
  function Single(s: seq<byte>): seq<seq<byte>> {
    if s == [] then [] else Single(s[..|s| - 1]) + [[s[|s| - 1]]]
  }

  lemma {:induction false} SingleReceivable(s: seq<byte>)
    ensures Concat(Single(s)) == s && Receivable(Single(s))
  {
    if s != [] {
      hide Run;
      var init := s[..|s| - 1];
      SingleReceivable(init);
      RunLeavesRoom(Single(init));
      assert Single(s)[..|Single(s)| - 1] == Single(init);
    }
  }

  lemma RunSnoc(chunks: seq<seq<byte>>, chunk: seq<byte>)
    ensures var s := Run(chunks);
            var t := ScanBuffer(s.rest + chunk);
            Run(chunks + [chunk]) == Scan(s.frames + t.frames, t.rest)
    ensures Concat(chunks + [chunk]) == Concat(chunks) + chunk
    ensures Receivable(chunks) && 0 < |chunk| <= RX_BUF_SIZE - |Run(chunks).rest| ==> Receivable(chunks + [chunk])
  {
    assert (chunks + [chunk])[..|chunks|] == chunks;
  }

  /** A run goes on from an empty buffer as it would from the start. */
  lemma {:induction false} RunGoesOn(a: seq<seq<byte>>, b: seq<seq<byte>>)
    requires Run(a).rest == []
    ensures Run(a + b) == Scan(Run(a).frames + Run(b).frames, Run(b).rest)
  {
    assert b == [] ==> Run(b) == Scan([], []);
    hide ScanBuffer, Run, Concat, Receivable;
    if b == [] {
      assert a + b == a && Run(a).frames + [] == Run(a).frames;
    } else {
      var init, last := b[..|b| - 1], b[|b| - 1];
      assert b == init + [last];
      RunGoesOn(a, init);
      RunSnoc(a + init, last);
      RunSnoc(init, last);
      AddAdd(a, init, [last]);
      AddAdd(Run(a).frames, Run(init).frames, ScanBuffer(Run(init).rest + last).frames);
    }
  }

  lemma AddAdd<T>(a: seq<T>, b: seq<T>, c: seq<T>)
    ensures a + (b + c) == a + b + c
  {
  }

  lemma {:induction false} ReceivableGoesOn(a: seq<seq<byte>>, b: seq<seq<byte>>)
    requires Run(a).rest == [] && Receivable(a) && Receivable(b)
    ensures Receivable(a + b)
  {
    if b == [] {
      assert a + b == a;
    } else {
      hide Run;
      var n := |b| - 1;
      assert (a + b)[..|a + b| - 1] == a + b[..n];
      ReceivableGoesOn(a, b[..n]);
      RunGoesOn(a, b[..n]);
    }
  }

  lemma {:induction false} ConcatConcat(a: seq<seq<byte>>, b: seq<seq<byte>>)
    ensures Concat(a + b) == Concat(a) + Concat(b)
  {
    if b == [] {
      assert a + b == a;
    } else {
      var n := |b| - 1;
      assert (a + b)[..|a + b| - 1] == a + b[..n];
      ConcatConcat(a, b[..n]);
    }
  }

  /** Two ways to receive the end of a stream are two ways to receive all of it. */
  lemma {:induction false} GoOn(s: seq<byte>, k: nat, c: seq<seq<byte>>, x: seq<seq<byte>>)
    requires k <= |s| && Receivable(c) && Concat(c) == s[..k] && Run(c).rest == []
    requires Receivable(x) && Concat(x) == s[k..]
    ensures Receivable(c + x) && Concat(c + x) == s
    ensures Run(c + x) == Scan(Run(c).frames + Run(x).frames, Run(x).rest)
  {
    hide Run, Receivable, Concat;
    RunGoesOn(c, x);
    ReceivableGoesOn(c, x);
    ConcatConcat(c, x);
    assert s[..k] + s[k..] == s;
  }

  /** The place of the first oversize header of a stream that goes on behind it. */
  lemma {:induction false} FirstOversize(s: seq<byte>) returns (p: nat)
    requires !NothingBehind(s)
    ensures p + HEADER_SIZE < |s| && LengthField(s[p..]) > MAX_COMMAND
    ensures NothingBehind(s[..p + 7]) && ScanBuffer(s[..p + 7]).rest == s[p..p + 7]
    decreases |s|
  {
    if LengthField(s) > MAX_COMMAND {
      assert s[0..] == s;
      return 0;
    }
    var total := HEADER_SIZE + LengthField(s);
    var q := FirstOversize(s[total..]);
    p := total + q;
    assert s[p..] == s[total..][q..];
    var head := s[..p + 7];
    assert head[2..4] == s[2..4] && head[total..] == s[total..][..q + 7];
    assert s[total..][q..q + 7] == s[p..p + 7];
  }

  /** Chunks that end in one holding the oversize header and `j` bytes behind it, which go with it. */
  lemma Dropped(s: seq<byte>, p: nat, j: nat) returns (chunks: seq<seq<byte>>)
    requires p + HEADER_SIZE + j <= |s| && j <= 1 && LengthField(s[p..]) > MAX_COMMAND
    requires NothingBehind(s[..p + 7]) && ScanBuffer(s[..p + 7]).rest == s[p..p + 7]
    ensures Receivable(chunks) && Concat(chunks) == s[..p + HEADER_SIZE + j]
    ensures Run(chunks) == Scan(ScanBuffer(s[..p + 7]).frames, [])
  {
    hide Single, ScanBuffer, LengthField, NothingBehind, Run, Concat, Receivable;
    var before, last := Single(s[..p + 7]), s[p + 7..p + HEADER_SIZE + j];
    SingleReceivable(s[..p + 7]);
    RunIsScan(before);
    JoinSlices(s, p, p + 7, p + HEADER_SIZE + j);
    JoinPrefix(s, p + 7, p + HEADER_SIZE + j);
    HeaderAt(s, p, j);
    OversizeDrops(s[p..p + HEADER_SIZE + j]);
    RunSnoc(before, last);
    chunks := before + [last];
  }

  lemma JoinPrefix(s: seq<byte>, y: nat, z: nat)
    requires y <= z <= |s|
    ensures s[..y] + s[y..z] == s[..z]
  {
  }

  lemma OversizeDrops(buffer: seq<byte>)
    requires |buffer| >= HEADER_SIZE && LengthField(buffer) > MAX_COMMAND
    ensures ScanBuffer(buffer) == Scan([], [])
  {
  }

  lemma JoinSlices(s: seq<byte>, x: nat, y: nat, z: nat)
    requires x <= y <= z <= |s|
    ensures s[x..y] + s[y..z] == s[x..z]
  {
  }

  lemma HeaderAt(s: seq<byte>, p: nat, j: nat)
    requires p + HEADER_SIZE + j <= |s|
    ensures LengthField(s[p..p + HEADER_SIZE + j]) == LengthField(s[p..])
  {
    SameHeader(s[p..p + HEADER_SIZE + j], s[p + HEADER_SIZE + j..]);
    assert s[p..p + HEADER_SIZE + j] + s[p + HEADER_SIZE + j..] == s[p..];
  }

  /** The bytes a scan accounts for: the frames, the rest, and a header that was dropped. */
  lemma {:induction false} ScanLength(s: seq<byte>)
    requires NothingBehind(s)
    ensures var r := ScanBuffer(s);
            |s| == |Concat(r.frames)| + |r.rest| || (r.rest == [] && |s| == |Concat(r.frames)| + HEADER_SIZE)
    decreases |s|
  {
    if |s| >= HEADER_SIZE && LengthField(s) <= MAX_COMMAND && |s| >= HEADER_SIZE + LengthField(s) {
      var total := HEADER_SIZE + LengthField(s);
      ScanLength(s[total..]);
      ConcatCons(s[..total], ScanBuffer(s[total..]).frames);
    }
  }

  lemma {:induction false} ConcatCons(x: seq<byte>, xs: seq<seq<byte>>)
    ensures Concat([x] + xs) == x + Concat(xs)
  {
    if xs == [] {
      assert [x] + xs == [x] && [x][..0] == [];
    } else {
      assert ([x] + xs)[..|xs|] == [x] + xs[..|xs| - 1];
      ConcatCons(x, xs[..|xs| - 1]);
    }
  }

  /** Two streams that differ in length by one byte never scan alike. */
  lemma OneByteTells(s: seq<byte>)
    requires s != [] && NothingBehind(s) && NothingBehind(s[1..])
    ensures ScanBuffer(s) != ScanBuffer(s[1..])
  {
    hide ScanBuffer, NothingBehind;
    ScanLength(s);
    ScanLength(s[1..]);
  }

  /** Whatever follows an oversize header, some chunking tells: two ways to receive the stream that end
      differently. */
  lemma {:induction false} ChunkingTells(s: seq<byte>) returns (a: seq<seq<byte>>, b: seq<seq<byte>>)
    requires !NothingBehind(s)
    ensures Receivable(a) && Receivable(b) && Concat(a) == s == Concat(b) && Run(a) != Run(b)
    decreases |s|, 1
  {
    var p := FirstOversize(s);
    hide Run, Receivable, ScanBuffer, NothingBehind, LengthField, Concat;
    var k := p + HEADER_SIZE;
    var c0 := Dropped(s, p, 0);
    var c1 := Dropped(s, p, 1);
    var x0, y0, x1, y1 := BehindTells(s, k);
    GoOn(s, k, c0, x0);
    GoOn(s, k, c0, y0);
    GoOn(s, k + 1, c1, x1);
    GoOn(s, k + 1, c1, y1);
    var before := Run(c0).frames;
    if Run(x0) != Run(y0) {
      PrefixTells(before, Run(x0), Run(y0));
      a, b := c0 + x0, c0 + y0;
    } else if Run(x1) != Run(y1) {
      PrefixTells(before, Run(x1), Run(y1));
      a, b := c1 + x1, c1 + y1;
    } else {
      PrefixTells(before, Run(x0), Run(x1));
      a, b := c0 + x0, c1 + x1;
    }
  }

  lemma PrefixTells(frames: seq<seq<byte>>, x: Scan, y: Scan)
    requires x != y
    ensures Scan(frames + x.frames, x.rest) != Scan(frames + y.frames, y.rest)
  {
    var k := |frames|;
    assert (frames + x.frames)[k..] == x.frames && (frames + y.frames)[k..] == y.frames;
  }

  /** Of what follows the header: two ways to receive it, and two to receive all but its first byte, of
      which some two end differently. */
  lemma {:induction false} BehindTells(s: seq<byte>, k: nat)
    returns (x0: seq<seq<byte>>, y0: seq<seq<byte>>, x1: seq<seq<byte>>, y1: seq<seq<byte>>)
    requires 0 < k < |s|
    ensures Receivable(x0) && Receivable(y0) && Concat(x0) == s[k..] == Concat(y0)
    ensures Receivable(x1) && Receivable(y1) && Concat(x1) == s[k + 1..] == Concat(y1)
    ensures Run(x0) != Run(y0) || Run(x1) != Run(y1) || Run(x0) != Run(x1)
    decreases |s|, 0
  {
    hide Run, Receivable, ScanBuffer, NothingBehind, Concat, Single;
    var t, u := s[k..], s[k + 1..];
    SingleReceivable(t);
    SingleReceivable(u);
    x0, y0, x1, y1 := Single(t), Single(t), Single(u), Single(u);
    if !NothingBehind(t) {
      x0, y0 := ChunkingTells(t);
    } else if !NothingBehind(u) {
      x1, y1 := ChunkingTells(u);
    } else {
      RunIsScan(x0);
      RunIsScan(x1);
      OneByteTells(t);
      assert t[1..] == u;
    }
  }

  /** However the stream is received, the outcome is the same. */
  ghost predicate ChunkIndifferent(s: seq<byte>) {
    forall a, b :: Receivable(a) && Receivable(b) && Concat(a) == s && Concat(b) == s ==> Run(a) == Run(b)
  }

  /** The exact condition. The outcome does not depend on the chunking if and only if nothing follows the
      first oversize header; and then it is the scan of the whole stream. */
  lemma IndifferentIffNothingBehind(s: seq<byte>)
    ensures ChunkIndifferent(s) <==> NothingBehind(s)
    ensures NothingBehind(s) ==> forall a :: Concat(a) == s ==> Run(a) == ScanBuffer(s)
  {
    hide Run, Receivable, ScanBuffer, NothingBehind, Concat;
    if NothingBehind(s) {
      forall a | Concat(a) == s ensures Run(a) == ScanBuffer(s) {
        RunIsScan(a);
      }
    } else {
      var a, b := ChunkingTells(s);
    }
  }

  const OVERSIZE_HEADER: seq<byte> := [1, 1, 0xFF, 0xFF, 0, 0, 0, 0]
  const EMPTY_COMMAND: seq<byte> := [1, 1, 0, 0, 0, 0, 0, 0]

  /** A stream that shows it: a command behind an oversize header is lost when both arrive together and
      handed on when it arrives alone. */
  lemma OversizeDependsOnChunks()
    ensures Concat([OVERSIZE_HEADER + EMPTY_COMMAND]) == Concat([OVERSIZE_HEADER, EMPTY_COMMAND])
    ensures Receivable([OVERSIZE_HEADER + EMPTY_COMMAND]) && Receivable([OVERSIZE_HEADER, EMPTY_COMMAND])
    ensures Run([OVERSIZE_HEADER + EMPTY_COMMAND]) == Scan([], [])
    ensures Run([OVERSIZE_HEADER, EMPTY_COMMAND]) == Scan([EMPTY_COMMAND], [])
  {
    var bad: seq<byte>, good: seq<byte> := OVERSIZE_HEADER, EMPTY_COMMAND;
    var none: seq<seq<byte>>, one, two := [], [bad + good], [bad, good];
    assert one[..0] == none && two[..1] == [bad] && [bad][..0] == none;
    assert Concat(none) == [] && Concat([bad]) == [] + bad && Concat(one) == [] + (bad + good);
    assert Concat(two) == Concat([bad]) + good;
    HeaderLengths();
    assert (bad + good)[2..4] == bad[2..4];
    assert [] + (bad + good) == bad + good && [] + bad == bad && [] + good == good;
    assert Run(none) == Scan([], []) && ScanBuffer(bad) == Scan([], []) && ScanBuffer(bad + good) == Scan([], []);
    assert Run([bad]) == Scan([], []);
    assert good[..8] == good && good[8..] == [];
    assert ScanBuffer(good) == Scan([good] + ScanBuffer([]).frames, []);
  }

  lemma HeaderLengths()
    ensures LengthField(OVERSIZE_HEADER) == 0xFFFF && LengthField(EMPTY_COMMAND) == 0
  {
    assert OVERSIZE_HEADER[2..4] == [0xFF, 0xFF] && EMPTY_COMMAND[2..4] == [0, 0];
    TwoBytes(0xFF, 0xFF);
    TwoBytes(0, 0);
  }

  lemma TwoBytes(a: byte, b: byte)
    ensures FromLe([a, b]) == a + 256 * b
  {
    var one: seq<byte> := [b];
    var two: seq<byte> := [a, b];
    assert two[1..] == one && one[1..] == [];
    assert FromLe(one) == b;
  }

  // ---- The commands of the host --------------------------------------------------------------------------

  function Images(frames: seq<Frame>): seq<seq<byte>> {
    if frames == [] then [] else [frames[0].ToBytes()] + Images(frames[1..])
  }

  lemma {:induction false} ImagesLength(frames: seq<Frame>)
    ensures |Images(frames)| == |frames|
  {
    if frames != [] {
      ImagesLength(frames[1..]);
    }
  }

  lemma {:induction false} EncodedScan(frames: seq<Frame>)
    requires forall i :: 0 <= i < |frames| ==> frames[i].WellFormed() && frames[i].length <= MAX_COMMAND
    ensures NothingBehind(Encoded(frames)) && ScanBuffer(Encoded(frames)) == Scan(Images(frames), [])
  {
    if frames != [] {
      var f, all := frames[0], Encoded(frames);
      var data := f.ToBytes();
      FrameRoundTrip(f);
      assert all[2..4] == data[2..4];
      assert all[..|data|] == data && all[|data|..] == Encoded(frames[1..]);
      EncodedScan(frames[1..]);
    }
  }

  /** Whatever the chunking, the commands sent, with payloads up to 8192 bytes, are handed on exactly
      and in order, and nothing is left in the buffer. */
  lemma {:induction false} CommandsReceived(frames: seq<Frame>, chunks: seq<seq<byte>>)
    requires forall i :: 0 <= i < |frames| ==> frames[i].WellFormed() && frames[i].length <= MAX_COMMAND
    requires Concat(chunks) == Encoded(frames)
    ensures Run(chunks) == Scan(Images(frames), [])
  {
    EncodedScan(frames);
    RunIsScan(chunks);
  }

  lemma {:induction false} KeptConcat(a: seq<seq<byte>>, b: seq<seq<byte>>, first: nat, malloc: nat -> bool)
    ensures Kept(a + b, first, malloc) == Kept(a, first, malloc) + Kept(b, first + |a|, malloc)
  {
    if b == [] {
      assert a + b == a;
    } else {
      assert (a + b)[..|a + b| - 1] == a + b[..|b| - 1];
      KeptConcat(a, b[..|b| - 1], first, malloc);
    }
  }

  lemma {:induction false} OfferAllConcat<T>(queue: seq<T>, a: seq<T>, b: seq<T>)
    ensures OfferAll(queue, a + b) == OfferAll(OfferAll(queue, a), b)
  {
    if b == [] {
      assert a + b == a;
    } else {
      assert (a + b)[..|a + b| - 1] == a + b[..|b| - 1];
      OfferAllConcat(queue, a, b[..|b| - 1]);
    }
  }

  lemma {:induction false} KeptAll(frames: seq<seq<byte>>, first: nat, malloc: nat -> bool)
    requires forall k :: first <= k < first + |frames| ==> malloc(k)
    ensures Kept(frames, first, malloc) == frames
  {
    if frames != [] {
      var init, last := frames[..|frames| - 1], frames[|frames| - 1];
      KeptAll(init, first, malloc);
      assert malloc(first + |init|) && frames == init + [last];
    }
  }

  /** With memory for each, the commands sent over one connection are offered to the queue, which then
      holds the newest 64 of what it held and them. */
  lemma {:induction false} CommandsQueued(
    queue: seq<seq<byte>>, frames: seq<Frame>, chunks: seq<seq<byte>>, first: nat, malloc: nat -> bool)
    requires forall i :: 0 <= i < |frames| ==> frames[i].WellFormed() && frames[i].length <= MAX_COMMAND
    requires Concat(chunks) == Encoded(frames) && |queue| <= CAPACITY
    requires forall k :: first <= k < first + |frames| ==> malloc(k)
    ensures OfferAll(queue, Kept(Run(chunks).frames, first, malloc)) == Newest(queue + Images(frames))
  {
    CommandsReceived(frames, chunks);
    ImagesLength(frames);
    KeptAll(Images(frames), first, malloc);
    OfferAllIsNewest(queue, Images(frames));
  }
}
