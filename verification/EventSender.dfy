/** Building, queueing and sending event frames (src/send_task.c), and what the host makes of the
    longest of them, the captured signal (src/gpio_signal_task.c, bridge/src/protocol.py). */
module EventSender {
  import opened Wire
  import opened Framing
  import opened TailDrop
  import opened Signals
  import opened SignalAdmission

  /** The frame of an event; its length field is the low 16 bits of the true length. */
  function EventFrame(opcode: byte, payload: seq<byte>, counter: nat, crc: nat): Frame {
    Frame(1, MSG_TYPE_EVENT, (1 + |payload|) % 0x1_0000, counter, crc, [opcode] + payload)
  }

  /** The bytes `send` is given for a frame in memory: as many as the header states. */
  function Transmitted(image: seq<byte>): seq<byte>
    requires |image| >= HEADER_SIZE && HEADER_SIZE + LengthField(image) <= |image|
  {
    image[..HEADER_SIZE + LengthField(image)]
  }

  /** A frame in memory holds at least the bytes its header states. */
  ghost predicate Complete(image: seq<byte>) {
    |image| >= HEADER_SIZE && HEADER_SIZE + LengthField(image) <= |image|
  }

  /** Frames are held by value here; who owns which block when is the subject of `SendQueue`. */
  class EventSender {
    var sendQueue: seq<seq<byte>>
    var cmdCounter: nat
    var connected: bool
    var sent: seq<byte>

    ghost predicate Valid()
      reads this
    {
      && |sendQueue| <= CAPACITY && cmdCounter < 0x1_0000
      && forall i :: 0 <= i < |sendQueue| ==> Complete(sendQueue[i])
    }

    constructor ()
      ensures Valid() && sendQueue == [] && sent == [] && !connected && cmdCounter == 0
    {
      sendQueue, cmdCounter, connected, sent := [], 0, false, [];
    }

    /** Build the frame and offer it to the queue; a full queue first drops its oldest frame. The event
        counter is a 16-bit counter. */
    method SendEvent(opcode: byte, payload: seq<byte>, crc: nat, mallocOk: bool)
      requires Valid() && crc < 0x1_0000
      modifies this`sendQueue, this`cmdCounter
      ensures Valid()
      ensures !mallocOk ==> sendQueue == old(sendQueue) && cmdCounter == old(cmdCounter)
      ensures mallocOk ==> cmdCounter == (old(cmdCounter) + 1) % 0x1_0000
      ensures mallocOk ==>
        sendQueue == Offer(old(sendQueue), EventFrame(opcode, payload, old(cmdCounter), crc).ToBytes())
    {
      hide LengthField;
      if !mallocOk {
        return;
      }
      var frame := EventFrame(opcode, payload, cmdCounter, crc);
      HeaderLength(frame);
      cmdCounter := (cmdCounter + 1) % 0x1_0000;
      if |sendQueue| < CAPACITY {
        sendQueue := sendQueue + [frame.ToBytes()];
      } else {
        sendQueue := sendQueue[1..];
        sendQueue := sendQueue + [frame.ToBytes()];
      }
    }

    /** One turn of the send task: the oldest frame is sent, or dropped without a connection; a failed
        send closes the connection. */
    method SendTask(sendOk: bool)
      requires Valid()
      modifies this`sendQueue, this`connected, this`sent
      ensures Valid()
      ensures old(sendQueue) == [] ==> sendQueue == [] && sent == old(sent) && connected == old(connected)
      ensures old(sendQueue) != [] ==>
                && sendQueue == old(sendQueue)[1..]
                && connected == (old(connected) && sendOk)
                && sent == old(sent) + (if old(connected) && sendOk then Transmitted(old(sendQueue)[0]) else [])
    {
      if |sendQueue| == 0 {
        return;
      }
      var image := sendQueue[0];
      sendQueue := sendQueue[1..];
      if connected {
        if sendOk {
          sent := sent + image[..HEADER_SIZE + LengthField(image)];
        } else {
          connected := false;
        }
      }
    }
  }

  lemma HeaderLength(f: Frame)
    requires f.length < 0x1_0000
    ensures LengthField(f.ToBytes()) == f.length
  {
    assert f.ToBytes()[2..4] == Le(f.length, 2);
    assert Pow256(2) == 0x1_0000;
    LeRoundTrip(f.length, 2);
  }

  // ---- The captured signal --------------------------------------------------------------------------

  const EVENT_GPIO_SIGNAL_CAPTURED: byte := 0x24

  /** sizeof(event_gpio_signal_captured_t). */
  const CAPTURE_HEADER := 13

  datatype Capture = Capture(cmdId: nat, gpio: byte, timestamp: nat, edges: seq<Edge>)

  ghost predicate CaptureFits(c: Capture) {
    && c.cmdId < 0x1_0000 && |c.edges| < 0x1_0000 && c.timestamp < Pow256(8)
    && forall i :: 0 <= i < |c.edges| ==> EdgeFits(c.edges[i])
  }

  function CapturePayload(c: Capture): (p: seq<byte>)
    requires CaptureFits(c)
    ensures |p| == CAPTURE_HEADER + 5 * |c.edges|
  {
    Le(c.cmdId, 2) + [c.gpio] + Le(|c.edges|, 2) + Le(c.timestamp, 8) + PackEdges(c.edges)
  }

  /** The firmware fills the payload record by record. */
  method BuildCapturePayload(c: Capture, mallocOk: bool) returns (payload: Option<array<byte>>)
    requires CaptureFits(c)
    ensures payload.Some? <==> mallocOk
    ensures payload.Some? ==> fresh(payload.value) && payload.value[..] == CapturePayload(c)
  {
    if !mallocOk {
      return None;
    }
    assert PackEdges(c.edges[..0]) == [];
    hide Le, PackEdge, PackEdges;
    var header := Le(c.cmdId, 2) + [c.gpio] + Le(|c.edges|, 2) + Le(c.timestamp, 8);
    var ptr := new byte[CAPTURE_HEADER + 5 * |c.edges|];
    for k := 0 to CAPTURE_HEADER
      invariant ptr[..k] == header[..k]
    {
      ptr[k] := header[k];
    }
    assert ptr[..CAPTURE_HEADER] == header + [];
    for i := 0 to |c.edges|
      invariant ptr[..CAPTURE_HEADER + 5 * i] == header + PackEdges(c.edges[..i])
    {
      var at := CAPTURE_HEADER + 5 * i;
      PackEdgesSnoc(c.edges, i, header);
      StoreRecord(ptr, at, PackEdge(c.edges[i]));
    }
    assert c.edges[..|c.edges|] == c.edges;
    assert ptr[..] == ptr[..CAPTURE_HEADER + 5 * |c.edges|];
    return Some(ptr);
  }

  lemma PackEdgesSnoc(edges: seq<Edge>, i: nat, header: seq<byte>)
    requires i < |edges| && forall k :: 0 <= k < |edges| ==> EdgeFits(edges[k])
    ensures header + PackEdges(edges[..i + 1]) == header + PackEdges(edges[..i]) + PackEdge(edges[i])
  {
    hide PackEdge;
    assert edges[..i + 1][..i] == edges[..i];
    assert header + (PackEdges(edges[..i]) + PackEdge(edges[i])) == header + PackEdges(edges[..i]) + PackEdge(edges[i]);
  }

  /** Write one record behind what is already there. */
  method StoreRecord(ptr: array<byte>, at: nat, record: seq<byte>)
    requires |record| == 5 && at + 5 <= ptr.Length
    modifies ptr
    ensures ptr[..at + 5] == old(ptr[..at]) + record
  {
    ptr[at], ptr[at + 1], ptr[at + 2], ptr[at + 3], ptr[at + 4] :=
      record[0], record[1], record[2], record[3], record[4];
    assert ptr[..at] == old(ptr[..at]);
  }

  /** The host's decoder; `None` is `struct.error` on data that ends inside the header or an edge. */
  function DecodedCapture(data: seq<byte>): Option<Capture> {
    if |data| < CAPTURE_HEADER then None
    else
      var n := FromLe(data[3..5]);
      if |data| < CAPTURE_HEADER + 5 * n then None
      else Some(Capture(FromLe(data[0..2]), data[2], FromLe(data[5..13]), EdgesIn(data[13..13 + 5 * n])))
  }

  function RecordAt(data: seq<byte>, offset: nat): Edge
    requires offset + 5 <= |data|
  {
    Edge(data[offset], FromLe(data[offset + 1..offset + 5]))
  }

  lemma EdgeInCapture(data: seq<byte>, n: nat, k: nat)
    requires 13 + 5 * n <= |data| && k < n
    ensures EdgesIn(data[13..13 + 5 * n])[k] == RecordAt(data, 13 + 5 * k)
  {
    hide FromLe;
    var s := data[13..13 + 5 * n];
    assert |s| / 5 == n;
    assert EdgesIn(s)[k] == EdgeAt(s, k);
    SliceOfSlice(data, 13, 13 + 5 * n, 5 * k + 1);
  }

  lemma SliceOfSlice(data: seq<byte>, from: nat, to: nat, at: nat)
    requires from <= to <= |data| && at + 4 <= to - from
    ensures data[from..to][at..at + 4] == data[from + at..from + at + 4]
  {
    var a, b := data[from..to][at..at + 4], data[from + at..from + at + 4];
    forall j | 0 <= j < 4 ensures a[j] == b[j] {
      assert a[j] == data[from..to][at + j];
    }
  }

  method DecodeCapture(data: seq<byte>) returns (c: Option<Capture>)
    ensures c == DecodedCapture(data)
  {
    hide RecordAt, EdgesIn, FromLe;
    if |data| < CAPTURE_HEADER {
      return None;
    }
    var n := FromLe(data[3..5]);
    var edges: seq<Edge> := [];
    var offset := 13;
    for i := 0 to n
      invariant offset == 13 + 5 * i
      invariant i > 0 ==> offset <= |data|
      invariant |edges| == i
      invariant forall k :: 0 <= k < i ==> edges[k] == RecordAt(data, 13 + 5 * k)
    {
      if offset + 5 > |data| {
        return None;
      }
      edges := edges + [RecordAt(data, offset)];
      offset := offset + 5;
    }
    forall k | 0 <= k < n ensures edges[k] == EdgesIn(data[13..13 + 5 * n])[k] {
      EdgeInCapture(data, n, k);
    }
    assert edges == EdgesIn(data[13..13 + 5 * n]);
    return Some(Capture(FromLe(data[0..2]), data[2], FromLe(data[5..13]), edges));
  }

  lemma CaptureRoundTrip(c: Capture)
    requires CaptureFits(c)
    ensures DecodedCapture(CapturePayload(c)) == Some(c)
  {
    hide Le, FromLe, PackEdges, EdgesIn;
    var p, n := CapturePayload(c), |c.edges|;
    assert Pow256(2) == 0x1_0000;
    LeRoundTrip(c.cmdId, 2);
    LeRoundTrip(n, 2);
    LeRoundTrip(c.timestamp, 8);
    assert p[0..2] == Le(c.cmdId, 2) && p[3..5] == Le(n, 2) && p[5..13] == Le(c.timestamp, 8);
    assert p[13..13 + 5 * n] == PackEdges(c.edges);
    EdgesRoundTrip(c.edges);
  }

  /** The frame is an event that decodes to this capture. */
  ghost predicate Carries(f: Frame, c: Capture) {
    && f.msgType == MSG_TYPE_EVENT && |f.payload| >= 1 && f.payload[0] == EVENT_GPIO_SIGNAL_CAPTURED
    && DecodedCapture(f.payload[1..]) == Some(c)
  }

  /** The host gets this capture: a frame that it dispatches of the stream carries it. */
  ghost predicate HostReceives(stream: seq<byte>, c: Capture) {
    exists f :: f in Events(Parse(stream).frames) && Carries(f, c)
  }

  /** Dispatching drops no frame that carries a capture, */
  lemma FrameReceived(stream: seq<byte>, k: nat, c: Capture)
    requires k < |Parse(stream).frames| && Carries(Parse(stream).frames[k], c)
    ensures HostReceives(stream, c)
  {
    var f := Parse(stream).frames[k];
    CarriersAreEvents(f, c);
    FrameIsEvent(Parse(stream).frames, k);
    hide Parse, Carries, Events;
    assert f in Events(Parse(stream).frames) && Carries(f, c);
  }

  /** and invents none. */
  lemma ReceivedFrame(stream: seq<byte>, c: Capture) returns (k: nat)
    requires HostReceives(stream, c)
    ensures k < |Parse(stream).frames| && Carries(Parse(stream).frames[k], c)
  {
    hide Parse, Carries, Events;
    var f :| f in Events(Parse(stream).frames) && Carries(f, c);
    k := EventIsFrame(Parse(stream).frames, f);
  }

  lemma EventIsFrame(frames: seq<Frame>, f: Frame) returns (k: nat)
    requires f in Events(frames)
    ensures k < |frames| && frames[k] == f
  {
    var at := EventPositions(frames);
    var l :| 0 <= l < |at| && Events(frames)[l] == f;
    k := at[l];
  }

  lemma FrameIsEvent(frames: seq<Frame>, k: nat)
    requires k < |frames| && frames[k].msgType == 3
    ensures frames[k] in Events(frames)
  {
    var at := EventPositions(frames);
    assert k in at;
    var l :| 0 <= l < |at| && at[l] == k;
    assert Events(frames)[l] == frames[k];
  }

  lemma CarriersAreEvents(f: Frame, c: Capture)
    requires Carries(f, c)
    ensures f.msgType == 3 && |f.payload| >= 1
  {
  }

  function CaptureFrame(c: Capture, counter: nat, crc: nat): Frame
    requires CaptureFits(c)
  {
    EventFrame(EVENT_GPIO_SIGNAL_CAPTURED, CapturePayload(c), counter, crc)
  }

  /** What is sent for a capture. Where the length of its frame does not fit the length field, that is
      less than the frame. */
  function CaptureBytes(c: Capture, counter: nat, crc: nat): (bytes: seq<byte>)
    requires CaptureFits(c) && counter < 0x1_0000 && crc < 0x1_0000
  {
    HeaderLength(CaptureFrame(c, counter, crc));
    Transmitted(CaptureFrame(c, counter, crc).ToBytes())
  }

  lemma ShortFrame(c: Capture, counter: nat, crc: nat)
    requires CaptureFits(c) && counter < 0x1_0000 && crc < 0x1_0000 && |c.edges| <= 816
    ensures var f := CaptureFrame(c, counter, crc);
      Acceptable(f) && CaptureBytes(c, counter, crc) == f.ToBytes() && Carries(f, c)
  {
    hide Le, FromLe, PackEdges, EdgesIn, CapturePayload;
    var f := CaptureFrame(c, counter, crc);
    HeaderLength(f);
    assert f.payload[1..] == CapturePayload(c);
    CaptureRoundTrip(c);
  }

  /** End to end, from the firmware's edge buffer to the host's edge list. Behind frames within the host's
      limit, and whatever is sent after it, a capture arrives exactly when it has at most 816 edges: beyond
      that its frame is longer than the host accepts, or its length no longer fits the length field. */
  lemma {:induction false} CaptureArrives(before: seq<Frame>, c: Capture, counter: nat, crc: nat, rest: seq<byte>)
    requires CaptureFits(c) && counter < 0x1_0000 && crc < 0x1_0000
    requires forall i :: 0 <= i < |before| ==> Acceptable(before[i])
    ensures HostReceives(Encoded(before) + CaptureBytes(c, counter, crc) + rest, c) <==> |c.edges| <= 816
  {
    hide Parse, CaptureFrame, CaptureBytes, Carries, Frame.ToBytes;
    var stream := Encoded(before) + CaptureBytes(c, counter, crc) + rest;
    if |c.edges| <= 816 {
      var f := CaptureFrame(c, counter, crc);
      ShortFrame(c, counter, crc);
      EncodedSnoc(before, f);
      EncodedFramesParse(before + [f], rest);
      assert Parse(stream).frames[|before|] == f;
      FrameReceived(stream, |before|, c);
    } else {
      TooLongToArrive(c, stream);
    }
  }

  lemma {:induction false} EncodedSnoc(frames: seq<Frame>, f: Frame)
    ensures Encoded(frames + [f]) == Encoded(frames) + f.ToBytes()
  {
    hide Frame.ToBytes;
    if frames == [] {
      assert [f][1..] == [] && [] + [f] == [f];
      assert f.ToBytes() + [] == f.ToBytes();
    } else {
      assert (frames + [f])[1..] == frames[1..] + [f];
      EncodedSnoc(frames[1..], f);
    }
  }

  // ---- Captures over one connection ----------------------------------------------------------------------

  /** A capture that is sent, with the counter and checksum of its frame. */
  datatype SentCapture = SentCapture(capture: Capture, counter: nat, crc: nat)
  {
    ghost predicate Fits() { CaptureFits(capture) && counter < 0x1_0000 && crc < 0x1_0000 }

    predicate Short() { |capture.edges| <= 816 }

    function Frame(): Frame
      requires Fits()
    {
      CaptureFrame(capture, counter, crc)
    }

    function Bytes(): seq<byte>
      requires Fits()
    {
      CaptureBytes(capture, counter, crc)
    }
  }

  /** The bytes of captures sent back to back. */
  function SentBytes(sent: seq<SentCapture>): seq<byte>
    requires forall i :: 0 <= i < |sent| ==> sent[i].Fits()
  {
    if sent == [] then []
    else
      var n := |sent| - 1;
      SentBytes(sent[..n]) + sent[n].Bytes()
  }

  function FramesOf(sent: seq<SentCapture>): (frames: seq<Frame>)
    requires forall i :: 0 <= i < |sent| ==> sent[i].Fits()
    ensures |frames| == |sent|
  {
    seq(|sent|, i requires 0 <= i < |sent| => sent[i].Frame())
  }

  lemma {:induction false} ShortBytes(sent: seq<SentCapture>)
    requires forall i :: 0 <= i < |sent| ==> sent[i].Fits() && sent[i].Short()
    ensures SentBytes(sent) == Encoded(FramesOf(sent))
    ensures forall i :: 0 <= i < |sent| ==> Acceptable(FramesOf(sent)[i]) && Carries(FramesOf(sent)[i], sent[i].capture)
  {
    hide CaptureFrame, CaptureBytes, Carries, Frame.ToBytes, CaptureFits, Acceptable;
    forall i | 0 <= i < |sent| ensures Acceptable(sent[i].Frame()) && Carries(sent[i].Frame(), sent[i].capture) {
      ShortFrame(sent[i].capture, sent[i].counter, sent[i].crc);
    }
    if sent != [] {
      var n := |sent| - 1;
      ShortBytes(sent[..n]);
      ShortFrame(sent[n].capture, sent[n].counter, sent[n].crc);
      EncodedSnoc(FramesOf(sent[..n]), sent[n].Frame());
      assert FramesOf(sent) == FramesOf(sent[..n]) + [sent[n].Frame()];
    }
  }

  /** Over one connection all captures arrive if and only if none has more than 816 edges; and then the host
      parses exactly their frames, in order, with nothing left over. */
  lemma {:induction false} AllCapturesArrive(sent: seq<SentCapture>)
    requires forall i :: 0 <= i < |sent| ==> sent[i].Fits()
    ensures (forall i :: 0 <= i < |sent| ==> HostReceives(SentBytes(sent), sent[i].capture))
            <==> forall i :: 0 <= i < |sent| ==> sent[i].Short()
    ensures (forall i :: 0 <= i < |sent| ==> sent[i].Short())
            ==> Parse(SentBytes(sent)) == Parsed(FramesOf(sent), [])
  {
    hide Parse, CaptureFrame, CaptureBytes, Carries, CaptureFits, SentBytes, FramesOf, Encoded;
    var stream := SentBytes(sent);
    if forall i :: 0 <= i < |sent| ==> sent[i].Short() {
      ShortBytes(sent);
      EncodedFramesParse(FramesOf(sent), []);
      NothingArrived();
      assert stream + [] == stream && FramesOf(sent) + [] == FramesOf(sent);
      forall i | 0 <= i < |sent| ensures HostReceives(stream, sent[i].capture) {
        assert Carries(Parse(stream).frames[i], sent[i].capture);
        FrameReceived(stream, i, sent[i].capture);
      }
    }
    forall i | 0 <= i < |sent| && !sent[i].Short() ensures !HostReceives(stream, sent[i].capture) {
      TooLongToArrive(sent[i].capture, stream);
    }
  }

  /** Captures whose bytes, taken for headers, announce a frame of 3856 bytes and then one of 3841. */
  ghost predicate Misleading(s: SentCapture) {
    && s.Fits() && s.counter % 256 == 15 && |s.capture.edges| == 818
    && s.capture.edges[769].level == 1 && s.capture.edges[769].duration % 256 == 15
  }

  /** Behind a frame that is too long the host takes payload bytes for headers, and even a short capture can
      be lost: behind a misleading capture no event at all is dispatched from the next 3601 bytes. */
  lemma {:induction false} ShortCapturesLost(s: SentCapture, rest: seq<byte>)
    requires Misleading(s) && |rest| < 3602
    ensures Events(Parse(s.Bytes() + rest).frames) == []
    ensures forall d :: !HostReceives(s.Bytes() + rest, d)
  {
    MisleadingBytes(s);
    hide CaptureBytes, Parse, Events, HostReceives, Misleading;
    var bytes := s.Bytes();
    assert (bytes + rest)[2..5] == bytes[2..5] && (bytes + rest)[3867..3869] == bytes[3867..3869];
    MisledParse(s.Bytes() + rest);
  }

  lemma {:induction false} MisledParse(stream: seq<byte>)
    requires 4112 <= |stream| < 4112 + 3602
    requires stream[2..5] == [8, 16, 15] && stream[3867..3869] == [1, 15]
    ensures Events(Parse(stream).frames) == []
    ensures forall d :: !HostReceives(stream, d)
  {
    hide Parse, FromBytes, LengthField, Events;
    assert stream[2..5][0] == stream[2] && stream[2..5][1] == stream[3] && stream[2..5][2] == stream[4];
    assert stream[3867..3869][0] == stream[3867] && stream[3867..3869][1] == stream[3868];
    HeaderAt(stream, 0);
    assert stream[0..] == stream;
    ParseSkips(stream);
    HeaderAt(stream, 1);
    ParseTakes(stream[1..]);
    assert stream[1..][3864..] == stream[3865..];
    HeaderAt(stream, 3865);
    ParseWaits(stream[3865..]);
    NotAnEvent(stream[1..][..3864]);
    OneFrame(FromBytes(stream[1..][..3864]).value);
  }

  lemma NotAnEvent(data: seq<byte>)
    requires |data| >= HEADER_SIZE
    ensures FromBytes(data).Some? && FromBytes(data).value.msgType == data[1]
  {
  }

  lemma OneFrame(f: Frame)
    requires f.msgType != MSG_TYPE_EVENT
    ensures Events([f] + []) == []
  {
    assert ([f] + [])[..0] == [];
  }

  lemma HeaderAt(stream: seq<byte>, at: nat)
    requires at + HEADER_SIZE <= |stream|
    ensures LengthField(stream[at..]) == stream[at + 2] + 256 * (stream[at + 3] as int)
  {
    var field := stream[at..][2..4];
    assert field == [stream[at + 2], stream[at + 3]];
    assert FromLe(field) == field[0] + 256 * FromLe(field[1..]);
    assert field[1..] == [stream[at + 3]] && [stream[at + 3]][1..] == [];
  }

  /** The bytes that mislead: those of the length field and the counter, and those of edge 769. */
  lemma MisleadingBytes(s: SentCapture)
    requires Misleading(s)
    ensures var bytes := s.Bytes();
      && |bytes| == 4112 && bytes[2..5] == [8, 16, 15] && bytes[3867..3869] == [1, 15]
  {
    var f, p := CaptureFrame(s.capture, s.counter, s.crc), PackEdges(s.capture.edges);
    HeaderLength(f);
    EdgeBytes(s.capture.edges, 769);
    FrameLayout(f);
    hide Le, FromLe, PackEdges, LengthField;
    assert CapturePayload(s.capture)[13..] == p;
    assert f.ToBytes()[9..] == CapturePayload(s.capture);
    assert f.ToBytes()[3867] == p[3845] && f.ToBytes()[3868] == p[3846];
  }

  /** The first two bytes of a packed edge. */
  lemma EdgeBytes(edges: seq<Edge>, k: nat)
    requires k < |edges| && forall i :: 0 <= i < |edges| ==> EdgeFits(edges[i])
    ensures PackEdges(edges)[5 * k] == edges[k].level && PackEdges(edges)[5 * k + 1] == edges[k].duration % 256
  {
    var p := PackEdges(edges);
    EdgesRoundTrip(edges);
    LowByte(p[5 * k + 1..5 * k + 5]);
    hide PackEdges, FromLe;
    assert EdgesIn(p)[k] == EdgeAt(p, k);
  }

  lemma LowByte(bytes: seq<byte>)
    requires bytes != []
    ensures FromLe(bytes) % 256 == bytes[0]
  {
  }

  /** An alternating signal of 527 us pulses, and one pulse. */
  const LONG_CAPTURE := SentCapture(Capture(1, 4, 0, seq(818, i => Edge(i % 2, 527))), 15, 0)
  const SHORT_CAPTURE := SentCapture(Capture(2, 4, 0, [Edge(1, 500)]), 16, 0)

  /** Two captures that show it: the short one arrives alone, and not behind the long one. */
  lemma {:induction false} ShortBehindLong()
    ensures LONG_CAPTURE.Fits() && SHORT_CAPTURE.Fits()
    ensures HostReceives(SentBytes([SHORT_CAPTURE]), SHORT_CAPTURE.capture)
    ensures !HostReceives(SentBytes([LONG_CAPTURE, SHORT_CAPTURE]), SHORT_CAPTURE.capture)
  {
    var long, short := LONG_CAPTURE, SHORT_CAPTURE;
    PairFits();
    hide CaptureFits, CaptureBytes, HostReceives;
    AllCapturesArrive([short]);
    assert [short][0].Short();
    ShortLength(short);
    ShortCapturesLost(long, short.Bytes());
    assert [long, short][..1] == [long] && [long][..0] == [];
    assert SentBytes([]) == [] && SentBytes([long]) == [] + long.Bytes() == long.Bytes();
    assert SentBytes([long, short]) == SentBytes([long]) + short.Bytes();
  }

  lemma PairFits()
    ensures LONG_CAPTURE.Fits() && SHORT_CAPTURE.Fits() && Misleading(LONG_CAPTURE)
  {
    assert Pow256(8) > 0;
  }

  lemma ShortLength(s: SentCapture)
    requires s.Fits() && |s.capture.edges| == 1
    ensures |s.Bytes()| == 27
  {
    ShortFrame(s.capture, s.counter, s.crc);
  }

  /** No frame within the host's limit decodes to more than 816 edges, so such a capture comes out of no
      stream, not even after the host has resynchronised. */
  lemma TooLongToArrive(c: Capture, stream: seq<byte>)
    requires |c.edges| > 816
    ensures !HostReceives(stream, c)
  {
    hide Parse, FromLe;
    ParsedFramesBounded(stream);
    var frames := Parse(stream).frames;
    forall k | 0 <= k < |frames| && |frames[k].payload| >= 1 ensures !Carries(frames[k], c) {
      assert |frames[k].payload[1..]| <= 4095;
    }
    if HostReceives(stream, c) {
      var k := ReceivedFrame(stream, c);
    }
  }
}
