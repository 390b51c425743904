/** The message frame (bridge/src/protocol.py) and the host's reassembly of frames from a TCP stream
    (bridge/src/server.py). */
module Framing {
  import opened Wire

  const HEADER_SIZE := 8
  const MAX_PAYLOAD := 4096
  const MSG_TYPE_EVENT: byte := 3

  datatype Frame = Frame(version: byte, msgType: byte, length: nat, cmdId: nat, crc: nat, payload: seq<byte>)
  {
    /** The fields fit the header, and the header states the length of the payload. */
    predicate WellFormed() {
      length == |payload| && length < 0x1_0000 && cmdId < 0x1_0000 && crc < 0x1_0000
    }

    function ToBytes(): (data: seq<byte>)
      ensures |data| == HEADER_SIZE + |payload|
    {
      [version, msgType] + Le(length, 2) + Le(cmdId, 2) + Le(crc, 2) + payload
    }
  }

  /** The length field of a header. */
  function LengthField(data: seq<byte>): (n: nat)
    requires |data| >= HEADER_SIZE
    ensures n < 0x1_0000
  {
    FromLeRoundTrip(data[2..4]);
    FromLe(data[2..4])
  }

  /** The slice of the payload is cut short when the data is. */
  function FromBytes(data: seq<byte>): (frame: Option<Frame>)
    ensures frame.Some? <==> |data| >= HEADER_SIZE
  {
    if |data| < HEADER_SIZE then None
    else
      var length := LengthField(data);
      var end := if |data| < HEADER_SIZE + length then |data| else HEADER_SIZE + length;
      Some(Frame(data[0], data[1], length, FromLe(data[4..6]), FromLe(data[6..8]), data[HEADER_SIZE..end]))
  }

  datatype Parsed = Parsed(frames: seq<Frame>, rest: seq<byte>)

  /** One pass over a buffer: a header that states too long a payload costs one byte, a complete frame
      is taken, an incomplete one waits. */
  function Parse(buffer: seq<byte>): Parsed
    decreases |buffer|
  {
    if |buffer| < HEADER_SIZE then Parsed([], buffer)
    else
      var length := LengthField(buffer);
      if length > MAX_PAYLOAD then Parse(buffer[1..])
      else if |buffer| < HEADER_SIZE + length then Parsed([], buffer)
      else
        var p := Parse(buffer[HEADER_SIZE + length..]);
        Parsed([FromBytes(buffer[..HEADER_SIZE + length]).value] + p.frames, p.rest)
  }

  lemma ParseSkips(buffer: seq<byte>)
    requires |buffer| >= HEADER_SIZE && LengthField(buffer) > MAX_PAYLOAD
    ensures Parse(buffer) == Parse(buffer[1..])
  {
  }

  lemma ParseTakes(buffer: seq<byte>)
    requires |buffer| >= HEADER_SIZE && LengthField(buffer) <= MAX_PAYLOAD
    requires |buffer| >= HEADER_SIZE + LengthField(buffer)
    ensures var total := HEADER_SIZE + LengthField(buffer);
            var p := Parse(buffer[total..]);
            Parse(buffer) == Parsed([FromBytes(buffer[..total]).value] + p.frames, p.rest)
  {
  }

  lemma ParseWaits(buffer: seq<byte>)
    requires |buffer| >= HEADER_SIZE ==>
               LengthField(buffer) <= MAX_PAYLOAD && |buffer| < HEADER_SIZE + LengthField(buffer)
    ensures Parse(buffer) == Parsed([], buffer)
  {
  }

  function Events(frames: seq<Frame>): seq<Frame> {
    if frames == [] then []
    else
      var last := frames[|frames| - 1];
      Events(frames[..|frames| - 1]) + (if last.msgType == MSG_TYPE_EVENT then [last] else [])
  }

  // ---- The server ------------------------------------------------------------------------------------

  /** What one `recv(1024)` may come back with; the peer's close is empty data. */
  datatype Recv = Data(bytes: seq<byte>) | Timeout | Failed

  /** The bytes that arrive before the connection ends. */
  function Stream(received: seq<Recv>): seq<byte> {
    if received == [] then []
    else match received[0]
      case Timeout => Stream(received[1..])
      case Failed => []
      case Data(bytes) => if bytes == [] then [] else bytes + Stream(received[1..])
  }

  /** `picked` is what a handler is to dispatch of these frames: the positions in `at`, in order, are exactly
      those of the event frames, and the frames there are picked. */
  ghost predicate PicksEvents(frames: seq<Frame>, at: seq<nat>, picked: seq<Frame>) {
    && |at| == |picked|
    && (forall k :: 0 <= k < |at| ==> at[k] < |frames| && picked[k] == frames[at[k]])
    && (forall k, l :: 0 <= k < l < |at| ==> at[k] < at[l])
    && (forall i: nat :: i in at <==> i < |frames| && frames[i].msgType == 3)
  }

  /** Exactly the event frames, each once and in order. */
  ghost predicate AreTheEvents(frames: seq<Frame>, picked: seq<Frame>) {
    exists at :: PicksEvents(frames, at, picked)
  }

  class IoTAgentServer {
    var clientSocket: Option<nat>
    var connected: bool
    var dispatched: seq<Frame>

    ghost predicate Valid()
      reads this
    {
      connected <==> clientSocket.Some?
    }

    constructor ()
      ensures Valid() && !connected && dispatched == []
    {
      clientSocket, connected, dispatched := None, false, [];
    }

    /** A new client replaces the one before. */
    method Accept(sock: nat)
      modifies this`clientSocket, this`connected
      ensures Valid() && clientSocket == Some(sock)
    {
      clientSocket := Some(sock);
      connected := true;
    }

    /** Only the end of the current connection disconnects: a handler left over from an earlier
        connection changes nothing. */
    method HandleDisconnect(sock: Option<nat>)
      requires Valid()
      modifies this`clientSocket, this`connected
      ensures Valid()
      ensures sock.Some? && old(clientSocket) != sock ==>
        clientSocket == old(clientSocket) && connected == old(connected)
      ensures sock.None? || old(clientSocket) == sock ==> !connected
    {
      var closing := if sock.None? then clientSocket else sock;
      if closing.Some? {
        if clientSocket == closing {
          clientSocket := None;
          connected := false;
        }
      }
    }

    /** The inner loop of the handler: dispatch every complete message of the buffer. */
    method ProcessBuffer(data: seq<byte>) returns (buffer: seq<byte>)
      modifies this`dispatched
      ensures dispatched == old(dispatched) + Events(Parse(data).frames)
      ensures AreTheEvents(Parse(data).frames, dispatched[|old(dispatched)|..])
      ensures buffer == Parse(data).rest
    {
      EventsArePicked(Parse(data).frames);
      NothingArrived();
      ParsedStarts(data);
      hide FromBytes, LengthField, AreTheEvents, Parse, Events, ParsedSoFar;
      buffer := data;
      ghost var frames: seq<Frame> := [];
      while |buffer| >= HEADER_SIZE
        invariant dispatched == old(dispatched) + Events(frames)
        invariant ParsedSoFar(data, frames, buffer)
        decreases |buffer|
      {
        ParsedMore(data, frames, buffer);
        var length := LengthField(buffer);
        if length > MAX_PAYLOAD {
          buffer := buffer[1..];
          continue;
        }
        var totalSize := HEADER_SIZE + length;
        if |buffer| < totalSize {
          break;
        }
        var msgData := buffer[..totalSize];
        buffer := buffer[totalSize..];
        var frame := FromBytes(msgData).value;
        if frame.msgType == MSG_TYPE_EVENT {
          dispatched := dispatched + [frame];
        }
        EventsSnoc(frames, frame);
        frames := frames + [frame];
      }
      ParsedEnds(data, frames, buffer);
    }

    /** The handler of one connection, over whatever its receive calls return. */
    method ClientHandler(sock: nat, received: seq<Recv>) returns (buffer: seq<byte>)
      requires Valid()
      modifies this
      ensures Valid()
      ensures dispatched == old(dispatched) + Events(Parse(Stream(received)).frames)
      ensures AreTheEvents(Parse(Stream(received)).frames, dispatched[|old(dispatched)|..])
      ensures buffer == Parse(Stream(received)).rest
      ensures old(clientSocket) != Some(sock) ==> clientSocket == old(clientSocket) && connected == old(connected)
      ensures old(clientSocket) == Some(sock) ==> !connected
    {
      hide Parse, Events, AreTheEvents;
      NothingArrived();
      EventsArePicked(Parse(Stream(received)).frames);
      buffer := [];
      ghost var arrived: seq<byte> := [];
      var i := 0;
      while i < |received|
        invariant i <= |received|
        invariant clientSocket == old(clientSocket) && connected == old(connected)
        invariant arrived + Stream(received[i..]) == Stream(received)
        invariant dispatched == old(dispatched) + Events(Parse(arrived).frames)
        invariant buffer == Parse(arrived).rest
      {
        var data := received[i];
        assert received[i..][1..] == received[i + 1..];
        i := i + 1;
        if data.Timeout? {
          continue;
        }
        if data.Failed? || data.bytes == [] {
          assert arrived + [] == arrived;
          break;
        }
        EventsAppend(arrived, data.bytes);
        assert arrived + (data.bytes + Stream(received[i..])) == arrived + data.bytes + Stream(received[i..]);
        arrived := arrived + data.bytes;
        buffer := buffer + data.bytes;
        buffer := ProcessBuffer(buffer);
      }
      assert arrived + [] == arrived;
      HandleDisconnect(Some(sock));
    }
  }

  // ---- Properties --------------------------------------------------------------------------------------

  lemma {:induction false} EventPositions(frames: seq<Frame>) returns (at: seq<nat>)
    ensures PicksEvents(frames, at, Events(frames))
  {
    at := [];
    if frames != [] {
      var n := |frames| - 1;
      var before := EventPositions(frames[..n]);
      at := if frames[n].msgType == MSG_TYPE_EVENT then before + [n] else before;
      PicksSnoc(frames, before, Events(frames[..n]));
      hide PicksEvents;
    }
  }

  lemma PicksSnoc(frames: seq<Frame>, at: seq<nat>, picked: seq<Frame>)
    requires frames != [] && PicksEvents(frames[..|frames| - 1], at, picked)
    ensures var n := |frames| - 1;
            if frames[n].msgType == 3 then PicksEvents(frames, at + [n], picked + [frames[n]])
            else PicksEvents(frames, at, picked)
  {
    var n := |frames| - 1;
    var more := if frames[n].msgType == 3 then at + [n] else at;
    forall i: nat ensures i in more <==> i < |frames| && frames[i].msgType == 3 {
      assert i in at <==> i < n && frames[..n][i].msgType == 3;
    }
  }

  lemma EventsArePicked(frames: seq<Frame>)
    ensures AreTheEvents(frames, Events(frames))
  {
    var at := EventPositions(frames);
  }

  /** That says it all: the frames that are to be dispatched are determined, */
  lemma {:induction false} PicksAreUnique(frames: seq<Frame>, a: seq<nat>, b: seq<nat>, p: seq<Frame>, q: seq<Frame>)
    requires PicksEvents(frames, a, p) && PicksEvents(frames, b, q)
    ensures a == b && p == q
  {
    SameElements(a, b);
    assert p == q;
  }

  lemma {:induction false} SameElements(a: seq<nat>, b: seq<nat>)
    requires forall k, l :: 0 <= k < l < |a| ==> a[k] < a[l]
    requires forall k, l :: 0 <= k < l < |b| ==> b[k] < b[l]
    requires forall i: nat :: i in a <==> i in b
    ensures a == b
  {
    assert a != [] ==> a[0] in b;
    assert b != [] ==> b[0] in a;
    if a != [] && b != [] {
      var m, n := |a| - 1, |b| - 1;
      assert a[m] in b && b[n] in a;
      assert a[m] == b[n];
      Increasing(a);
      Increasing(b);
      SameElements(a[..m], b[..n]);
    }
  }

  lemma Increasing(a: seq<nat>)
    requires a != [] && forall k, l :: 0 <= k < l < |a| ==> a[k] < a[l]
    ensures var m := |a| - 1; forall i: nat :: i in a[..m] <==> i in a && i != a[m]
  {
    var m := |a| - 1;
    forall i: nat ensures i in a[..m] <==> i in a && i != a[m] {
      if i in a && i != a[m] {
        var k :| 0 <= k < |a| && a[k] == i;
        assert a[..m][k] == i;
      }
    }
  }

  /** and an event frame is among them as often as it was parsed, any other never. */
  lemma {:induction false} EventsCounted(frames: seq<Frame>, picked: seq<Frame>, f: Frame)
    requires AreTheEvents(frames, picked)
    ensures multiset(picked)[f] == if f.msgType == 3 then multiset(frames)[f] else 0
    ensures (forall i :: 0 <= i < |frames| ==> frames[i].msgType == 3) ==> picked == frames
  {
    var a :| PicksEvents(frames, a, picked);
    var b := EventPositions(frames);
    PicksAreUnique(frames, a, b, picked, Events(frames));
    CountEvents(frames, f);
  }

  lemma CountSnoc(frames: seq<Frame>, last: Frame, f: Frame)
    ensures multiset(frames + [last])[f] == multiset(frames)[f] + if f == last then 1 else 0
  {
  }

  lemma {:induction false} CountEvents(frames: seq<Frame>, f: Frame)
    ensures multiset(Events(frames))[f] == if f.msgType == 3 then multiset(frames)[f] else 0
    ensures (forall i :: 0 <= i < |frames| ==> frames[i].msgType == 3) ==> Events(frames) == frames
  {
    if frames != [] {
      var n := |frames| - 1;
      CountEvents(frames[..n], f);
      assert frames == frames[..n] + [frames[n]];
      CountSnoc(frames[..n], frames[n], f);
      CountSnoc(Events(frames[..n]), frames[n], f);
    }
  }

  /** The frame is within the host's limit, and its header is true. */
  ghost predicate Acceptable(f: Frame) { f.WellFormed() && f.length <= MAX_PAYLOAD }

  /** A connection that carries acceptable frames: what `ClientHandler` dispatches is exactly the event frames
      sent, each once and in order, however they were cut and whatever timeouts came between. */
  lemma EventsReachHandler(received: seq<Recv>, frames: seq<Frame>, picked: seq<Frame>)
    requires forall i :: 0 <= i < |frames| ==> Acceptable(frames[i])
    requires Stream(received) == Encoded(frames)
    ensures AreTheEvents(Parse(Stream(received)).frames, picked) <==> AreTheEvents(frames, picked)
    ensures Parse(Stream(received)).rest == []
  {
    hide AreTheEvents, Parse, Encoded;
    EncodedFramesParse(frames, []);
    NothingArrived();
    assert Encoded(frames) + [] == Encoded(frames) && frames + [] == frames;
  }

  /** These frames have been taken from the data, and the buffer is left. */
  ghost predicate ParsedSoFar(data: seq<byte>, frames: seq<Frame>, buffer: seq<byte>) {
    Parse(data) == Parsed(frames + Parse(buffer).frames, Parse(buffer).rest)
  }

  lemma ParsedStarts(data: seq<byte>)
    ensures ParsedSoFar(data, [], data)
  {
    hide Parse;
    assert [] + Parse(data).frames == Parse(data).frames;
  }

  lemma ParsedMore(data: seq<byte>, frames: seq<Frame>, buffer: seq<byte>)
    requires |buffer| >= HEADER_SIZE && ParsedSoFar(data, frames, buffer)
    ensures LengthField(buffer) > MAX_PAYLOAD ==> ParsedSoFar(data, frames, buffer[1..])
    ensures var total := HEADER_SIZE + LengthField(buffer);
            LengthField(buffer) <= MAX_PAYLOAD && |buffer| >= total ==>
              ParsedSoFar(data, frames + [FromBytes(buffer[..total]).value], buffer[total..])
  {
    hide Parse, FromBytes, LengthField;
    var total := HEADER_SIZE + LengthField(buffer);
    if LengthField(buffer) > MAX_PAYLOAD {
      ParseSkips(buffer);
    } else if |buffer| >= total {
      ParseTakes(buffer);
      var f, more := FromBytes(buffer[..total]).value, Parse(buffer[total..]).frames;
      assert frames + ([f] + more) == frames + [f] + more;
    }
  }

  lemma ParsedEnds(data: seq<byte>, frames: seq<Frame>, buffer: seq<byte>)
    requires ParsedSoFar(data, frames, buffer)
    requires |buffer| >= HEADER_SIZE ==>
               LengthField(buffer) <= MAX_PAYLOAD && |buffer| < HEADER_SIZE + LengthField(buffer)
    ensures Parse(data) == Parsed(frames, buffer)
  {
    hide Parse;
    ParseWaits(buffer);
    assert frames + [] == frames;
  }

  lemma EventsSnoc(frames: seq<Frame>, f: Frame)
    ensures Events(frames + [f]) == Events(frames) + if f.msgType == MSG_TYPE_EVENT then [f] else []
  {
    assert (frames + [f])[..|frames|] == frames;
  }

  lemma {:induction false} EventsConcat(a: seq<Frame>, b: seq<Frame>)
    ensures Events(a + b) == Events(a) + Events(b)
  {
    if b == [] {
      assert a + b == a;
    } else {
      assert (a + b)[..|a + b| - 1] == a + b[..|b| - 1];
      EventsConcat(a, b[..|b| - 1]);
    }
  }

  /** Parsing what is there and then the leftover with what arrives later is parsing it all at once. */
  lemma {:induction false} ParseAppend(a: seq<byte>, b: seq<byte>)
    ensures var p := Parse(a);
            var q := Parse(p.rest + b);
            Parse(a + b) == Parsed(p.frames + q.frames, q.rest)
    decreases |a|
  {
    hide Parse, FromBytes;
    if |a| >= HEADER_SIZE {
      assert (a + b)[2..4] == a[2..4];
      assert LengthField(a + b) == LengthField(a);
      hide LengthField;
      var total := HEADER_SIZE + LengthField(a);
      if LengthField(a) > MAX_PAYLOAD {
        assert (a + b)[1..] == a[1..] + b;
        ParseSkips(a);
        ParseSkips(a + b);
        ParseAppend(a[1..], b);
      } else if |a| >= total {
        assert (a + b)[total..] == a[total..] + b && (a + b)[..total] == a[..total];
        ParseTakes(a);
        ParseTakes(a + b);
        ParseAppend(a[total..], b);
        AddAdd([FromBytes(a[..total]).value], Parse(a[total..]).frames, Parse(Parse(a).rest + b).frames);
      } else {
        NothingTaken(a, b);
      }
    } else {
      NothingTaken(a, b);
    }
  }

  lemma AddAdd(a: seq<Frame>, b: seq<Frame>, c: seq<Frame>)
    ensures a + (b + c) == a + b + c
  {
  }

  lemma NothingTaken(a: seq<byte>, b: seq<byte>)
    requires |a| >= HEADER_SIZE ==> LengthField(a) <= MAX_PAYLOAD && |a| < HEADER_SIZE + LengthField(a)
    ensures Parse(a) == Parsed([], a) && [] + Parse(a + b).frames == Parse(a + b).frames
  {
    ParseWaits(a);
    hide Parse;
  }

  lemma EventsAppend(a: seq<byte>, b: seq<byte>)
    ensures var p := Parse(a);
            var q := Parse(p.rest + b);
      && Events(Parse(a + b).frames) == Events(p.frames) + Events(q.frames)
      && Parse(a + b).rest == q.rest
  {
    hide Parse, Events;
    ParseAppend(a, b);
    EventsConcat(Parse(a).frames, Parse(Parse(a).rest + b).frames);
  }

  lemma NothingArrived()
    ensures Parse([]) == Parsed([], []) && Events([]) == []
  {
  }

  /** What the handler is left with after processing chunk after chunk. */
  function Reassemble(chunks: seq<seq<byte>>): Parsed {
    if chunks == [] then Parsed([], [])
    else
      var p := Reassemble(chunks[..|chunks| - 1]);
      var q := Parse(p.rest + chunks[|chunks| - 1]);
      Parsed(p.frames + q.frames, q.rest)
  }

  function Concat(chunks: seq<seq<byte>>): seq<byte> {
    if chunks == [] then [] else Concat(chunks[..|chunks| - 1]) + chunks[|chunks| - 1]
  }

  /** Reassembly does not depend on how the stream is cut, whatever bytes it holds. */
  lemma {:induction false} ChunkIndependent(chunks: seq<seq<byte>>)
    ensures Reassemble(chunks) == Parse(Concat(chunks))
  {
    if chunks != [] {
      var n := |chunks| - 1;
      ChunkIndependent(chunks[..n]);
      ParseAppend(Concat(chunks[..n]), chunks[n]);
    }
  }

  lemma SameStreamSameFrames(a: seq<seq<byte>>, b: seq<seq<byte>>)
    requires Concat(a) == Concat(b)
    ensures Reassemble(a) == Reassemble(b)
  {
    ChunkIndependent(a);
    ChunkIndependent(b);
  }

  lemma FrameRoundTrip(f: Frame)
    requires f.WellFormed()
    ensures FromBytes(f.ToBytes()) == Some(f) && LengthField(f.ToBytes()) == f.length
  {
    hide Le, FromLe;
    var data := f.ToBytes();
    assert data[2..4] == Le(f.length, 2) && data[4..6] == Le(f.cmdId, 2) && data[6..8] == Le(f.crc, 2);
    assert Pow256(2) == 0x1_0000;
    LeRoundTrip(f.length, 2);
    LeRoundTrip(f.cmdId, 2);
    LeRoundTrip(f.crc, 2);
    assert data[8..|data|] == f.payload;
  }

  /** Where the fields of a frame lie: two bytes each, low byte first. */
  lemma FrameLayout(f: Frame)
    requires f.WellFormed()
    ensures var b := f.ToBytes();
      && b[0] == f.version && b[1] == f.msgType && b[8..] == f.payload
      && b[2] == f.length % 256 && b[3] == f.length / 256
      && b[4] == f.cmdId % 256 && b[5] == f.cmdId / 256
      && b[6] == f.crc % 256 && b[7] == f.crc / 256
  {
    TwoBytes(f.length);
    TwoBytes(f.cmdId);
    TwoBytes(f.crc);
    hide Le;
  }

  lemma TwoBytes(x: nat)
    requires x < 0x1_0000
    ensures Le(x, 2) == [x % 256, x / 256]
  {
    assert Le(x / 256, 1) == [x / 256];
  }

  function Encoded(frames: seq<Frame>): seq<byte> {
    if frames == [] then [] else frames[0].ToBytes() + Encoded(frames[1..])
  }

  /** A frame at the start of a buffer is taken whole. */
  lemma ParseOne(f: Frame, tail: seq<byte>)
    requires f.WellFormed() && f.length <= MAX_PAYLOAD
    ensures Parse(f.ToBytes() + tail) == Parsed([f] + Parse(tail).frames, Parse(tail).rest)
  {
    FrameRoundTrip(f);
    assert |f.ToBytes()| == HEADER_SIZE + f.length;
    hide Frame.ToBytes, FromBytes;
    var data := f.ToBytes();
    var all := data + tail;
    assert all[2..4] == data[2..4];
    assert all[..|data|] == data && all[|data|..] == tail;
  }

  /** Frames sent back to back, with payloads up to 4096 bytes, are dispatched exactly and in order,
      and what follows them is parsed as if it came alone. */
  lemma {:induction false} EncodedFramesParse(frames: seq<Frame>, rest: seq<byte>)
    requires forall i :: 0 <= i < |frames| ==> frames[i].WellFormed() && frames[i].length <= MAX_PAYLOAD
    ensures Parse(Encoded(frames) + rest) == Parsed(frames + Parse(rest).frames, Parse(rest).rest)
  {
    hide Parse, Frame.ToBytes;
    if frames == [] {
      assert Encoded(frames) + rest == rest;
    } else {
      var tail := Encoded(frames[1..]) + rest;
      assert Encoded(frames) + rest == frames[0].ToBytes() + tail;
      ParseOne(frames[0], tail);
      EncodedFramesParse(frames[1..], rest);
    }
  }

  /** The same through any chunking: every frame, in order, and nothing left over. */
  lemma {:induction false} FramesSurviveChunking(frames: seq<Frame>, chunks: seq<seq<byte>>)
    requires forall i :: 0 <= i < |frames| ==> frames[i].WellFormed() && frames[i].length <= MAX_PAYLOAD
    requires Concat(chunks) == Encoded(frames)
    ensures Reassemble(chunks) == Parsed(frames, [])
  {
    ChunkIndependent(chunks);
    EncodedFramesParse(frames, []);
    assert Encoded(frames) + [] == Encoded(frames);
  }

  /** Whatever the bytes, every frame handed on is well formed and within the host's limit, and the
      leftover is shorter than one frame of the largest size. */
  lemma {:induction false} ParsedFramesBounded(buffer: seq<byte>)
    ensures forall i :: 0 <= i < |Parse(buffer).frames| ==>
              Parse(buffer).frames[i].WellFormed() && Parse(buffer).frames[i].length <= MAX_PAYLOAD
    ensures |Parse(buffer).rest| < HEADER_SIZE + MAX_PAYLOAD
    decreases |buffer|
  {
    if |buffer| >= HEADER_SIZE {
      var total := HEADER_SIZE + LengthField(buffer);
      if LengthField(buffer) > MAX_PAYLOAD {
        ParsedFramesBounded(buffer[1..]);
      } else if |buffer| >= total {
        ParsedFramesBounded(buffer[total..]);
        var data := buffer[..total];
        assert data[2..4] == buffer[2..4];
        assert Pow256(2) == 0x1_0000;
        FromLeRoundTrip(data[4..6]);
        FromLeRoundTrip(data[6..8]);
      }
    }
  }
}
