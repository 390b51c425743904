/** Admission of a signal transmission: the platform's schema (platform/src/models/schemas.py), the
    bridge's serialisation (bridge/src/protocol.py), the firmware's checks (src/command_dispatcher.c)
    and the transmit task's carrier check (src/gpio_signal_task.c). */
module SignalAdmission {
  import opened Board
  import opened Signals
  import opened Wire
  import opened Arithmetic
  import Float32

  const CMD_GPIO_SIGNAL_TX: byte := 0x14
  const MODE_SIGNAL := 4
  const MAX_CARRIER_HZ := 500000

  /** Opcode and packed header: 1 + sizeof(cmd_gpio_signal_tx_t). */
  const FIXED_SIZE := 22

  datatype SignalTxRequest = SignalTxRequest(
    signal: seq<Edge>, delayUs: int, carrierHz: int, dutyCycle: real, repeatCount: int, repeatGapUs: int)

  predicate EdgeAccepted(e: Edge) {
    0 <= e.level <= 1 && 1 <= e.duration <= 32767
  }

  /** Air time of all repetitions and the gaps between them. */
  function TotalDuration(signal: seq<Edge>, repeatCount: int, repeatGapUs: int): int {
    Duration(signal) * repeatCount + repeatGapUs * (repeatCount - 1)
  }

  predicate SchemaAccepts(r: SignalTxRequest) {
    && |r.signal| <= 256
    && (forall i :: 0 <= i < |r.signal| ==> EdgeAccepted(r.signal[i]))
    && 0 <= r.delayUs
    && 0 <= r.carrierHz <= MAX_CARRIER_HZ
    && 0.0 < r.dutyCycle <= 1.0
    && 1 <= r.repeatCount <= 100
    && 0 <= r.repeatGapUs <= 100000
    && TotalDuration(r.signal, r.repeatCount, r.repeatGapUs) <= 30000000
  }

  // ---- The command on the wire ---------------------------------------------------------------------

  /** The fields of a CMD_GPIO_SIGNAL_TX payload; the duty cycle is its 32-bit float pattern. */
  datatype Command = Command(
    gpio: nat, delayUs: nat, carrierHz: nat, duty: nat, repeatCount: nat, repeatGapUs: nat, edges: seq<Edge>)

  predicate EdgeFits(e: Edge) { 0 <= e.level < 256 && 0 <= e.duration < 0x1_0000_0000 }

  /** Every field is in the range of its `struct.pack` code. */
  ghost predicate Fits(c: Command) {
    && c.gpio < 256 && |c.edges| < 0x1_0000 && c.delayUs < 0x1_0000_0000 && c.carrierHz < 0x1_0000_0000
    && c.duty < 0x1_0000_0000 && c.repeatCount < 0x1_0000 && c.repeatGapUs < 0x1_0000_0000
    && forall i :: 0 <= i < |c.edges| ==> EdgeFits(c.edges[i])
  }

  function PackEdge(e: Edge): (p: seq<byte>)
    requires EdgeFits(e)
    ensures |p| == 5
  {
    [e.level] + Le(e.duration, 4)
  }

  function PackEdges(edges: seq<Edge>): (p: seq<byte>)
    requires forall i :: 0 <= i < |edges| ==> EdgeFits(edges[i])
    ensures |p| == 5 * |edges|
  {
    if edges == [] then [] else PackEdges(edges[..|edges| - 1]) + PackEdge(edges[|edges| - 1])
  }

  function PackHeader(
    gpio: byte, n: nat, delayUs: nat, carrierHz: nat, duty: nat, repeatCount: nat, gap: nat): (p: seq<byte>)
    ensures |p| == FIXED_SIZE - 1
  {
    [gpio] + Le(n, 2) + Le(delayUs, 4) + Le(carrierHz, 4) + Le(duty, 4) + Le(repeatCount, 2) + Le(gap, 4)
  }

  /** The frame payload that carries a command. */
  function Payload(c: Command): (p: seq<byte>)
    requires Fits(c)
    ensures |p| == FIXED_SIZE + 5 * |c.edges|
  {
    [CMD_GPIO_SIGNAL_TX]
    + PackHeader(c.gpio, |c.edges|, c.delayUs, c.carrierHz, c.duty, c.repeatCount, c.repeatGapUs)
    + PackEdges(c.edges)
  }

  /** `struct.pack` raises when a field does not fit; a duty cycle in (0, 1] always does. */
  predicate Packable(gpio: int, r: SignalTxRequest) {
    && 0 <= gpio < 256 && |r.signal| < 0x1_0000
    && 0 <= r.delayUs < 0x1_0000_0000 && 0 <= r.carrierHz < 0x1_0000_0000
    && 0 <= r.repeatCount < 0x1_0000 && 0 <= r.repeatGapUs < 0x1_0000_0000
    && forall i :: 0 <= i < |r.signal| ==> EdgeFits(r.signal[i])
  }

  function CommandOf(gpio: nat, r: SignalTxRequest): (c: Command)
    requires Packable(gpio, r) && 0.0 < r.dutyCycle <= 1.0
    ensures Fits(c)
  {
    Float32.EncodeDecodes(r.dutyCycle);
    Command(gpio, r.delayUs, r.carrierHz, Float32.Encode(r.dutyCycle), r.repeatCount, r.repeatGapUs, r.signal)
  }

  /** The bridge: opcode, packed header, then one five-byte record an edge; `None` is `struct.error`. */
  method ToBytes(gpio: int, r: SignalTxRequest) returns (data: Option<seq<byte>>)
    requires 0.0 < r.dutyCycle <= 1.0
    ensures data.Some? <==> Packable(gpio, r)
    ensures data.Some? ==> Fits(CommandOf(gpio, r)) && data.value == Payload(CommandOf(gpio, r))
  {
    hide Float32.Encode, Le;
    Float32.EncodeDecodes(r.dutyCycle);
    if !(0 <= gpio < 256 && |r.signal| < 0x1_0000
      && 0 <= r.delayUs < 0x1_0000_0000 && 0 <= r.carrierHz < 0x1_0000_0000
      && 0 <= r.repeatCount < 0x1_0000 && 0 <= r.repeatGapUs < 0x1_0000_0000)
    {
      return None;
    }
    var head := [CMD_GPIO_SIGNAL_TX] + PackHeader(
      gpio, |r.signal|, r.delayUs, r.carrierHz, Float32.Encode(r.dutyCycle), r.repeatCount, r.repeatGapUs);
    var bytes := head;
    for i := 0 to |r.signal|
      invariant forall j :: 0 <= j < i ==> EdgeFits(r.signal[j])
      invariant bytes == head + PackEdges(r.signal[..i])
    {
      var edge := r.signal[i];
      if !EdgeFits(edge) {
        return None;
      }
      assert r.signal[..i + 1][..i] == r.signal[..i];
      bytes := bytes + PackEdge(edge);
    }
    assert r.signal[..|r.signal|] == r.signal;
    return Some(bytes);
  }

  // ---- The firmware --------------------------------------------------------------------------------

  function EdgeAt(data: seq<byte>, i: nat): Edge
    requires 5 * i + 5 <= |data|
  {
    Edge(data[5 * i], FromLe(data[5 * i + 1..5 * i + 5]))
  }

  /** The edge list that the transmit task reads from its copy of the signal bytes. */
  function EdgesIn(data: seq<byte>): (edges: seq<Edge>)
    requires |data| % 5 == 0
    ensures |edges| == |data| / 5
  {
    seq(|data| / 5, i requires 0 <= i < |data| / 5 => EdgeAt(data, i))
  }

  datatype Verdict = InvalidArg | WrongMode | NoMemory | EmptySignal | Queued(item: Item)

  datatype Item = Item(
    gpio: nat, signalLen: nat, delayUs: nat, carrierHz: nat, duty: nat, repeatCount: nat, repeatGapUs: nat,
    signalData: seq<byte>)

  /** The header of a payload, read field by field. */
  function HeaderOf(p: seq<byte>): Item
    requires |p| >= FIXED_SIZE
  {
    Item(p[1], FromLe(p[2..4]), FromLe(p[4..8]), FromLe(p[8..12]), FromLe(p[12..16]), FromLe(p[16..18]),
         FromLe(p[18..22]), p[FIXED_SIZE..])
  }

  /** The payloads that pass every check. */
  predicate FirmwareAccepts(p: seq<byte>, modes: seq<nat>)
    requires |modes| == GPIO_COUNT
  {
    && |p| >= FIXED_SIZE
    && var h := HeaderOf(p);
    && h.gpio < GPIO_COUNT && modes[h.gpio] == MODE_SIGNAL
    && 1 <= h.repeatCount <= 100 && h.repeatGapUs <= 100000
    && |h.signalData| == 5 * h.signalLen
    && (forall i :: 0 <= i < h.signalLen ==> EdgeAccepted(EdgeAt(h.signalData, i)))
    && TotalDuration(EdgesIn(h.signalData), h.repeatCount, h.repeatGapUs) <= 30000000
  }

  const U64 := 0x1_0000_0000_0000_0000

  /** The duration loop: an unsigned 64-bit sum, whose largest value marks a bad edge. */
  method SumDurations(data: seq<byte>, n: nat) returns (sum: nat)
    requires |data| == 5 * n && n < 0x1_0000
    ensures (forall i :: 0 <= i < n ==> EdgeAccepted(EdgeAt(data, i)))
            ==> sum == Duration(EdgesIn(data)) && sum <= 32767 * n
    ensures !(forall i :: 0 <= i < n ==> EdgeAccepted(EdgeAt(data, i))) ==> sum == U64 - 1
  {
    ghost var edges := EdgesIn(data);
    sum := 0;
    for i := 0 to n
      invariant forall j :: 0 <= j < i ==> EdgeAccepted(EdgeAt(data, j))
      invariant sum == Duration(edges[..i]) && sum <= 32767 * i
    {
      var durationUs := FromLe(data[i * 5 + 1..i * 5 + 5]);
      assert edges[i] == EdgeAt(data, i);
      if data[i * 5] > 1 || durationUs == 0 || durationUs > 32767 {
        assert !EdgeAccepted(EdgeAt(data, i));
        return U64 - 1;
      }
      assert edges[..i + 1] == edges[..i] + [edges[i]];
      DurationConcat(edges[..i], [edges[i]]);
      assert [edges[i]][1..] == [];
      sum := (sum + durationUs) % U64;
    }
    assert edges[..n] == edges;
  }

  /** The total, in unsigned 64-bit arithmetic: it never wraps. */
  method TotalOf(sum: nat, repeatCount: nat, repeatGapUs: nat) returns (total: nat)
    requires sum <= 32767 * 0xFFFF && 1 <= repeatCount <= 100 && repeatGapUs <= 100000
    ensures total == sum * repeatCount + repeatGapUs * (repeatCount - 1)
  {
    MulMonotone(sum, 32767 * 0xFFFF, repeatCount);
    MulMonotone(0, sum, repeatCount);
    MulMonotone(repeatGapUs, 100000, repeatCount - 1);
    MulMonotone(0, repeatGapUs, repeatCount - 1);
    var air, gaps := sum * repeatCount, repeatGapUs * (repeatCount - 1);
    assert 0 <= air && 0 <= gaps && air + gaps < U64;
    total := air % U64;
    total := (total + gaps % U64) % U64;
  }

  /** The CMD_GPIO_SIGNAL_TX branch of the dispatcher, up to the queue. */
  method CheckSignalTx(p: seq<byte>, modes: seq<nat>, mallocOk: bool) returns (v: Verdict)
    requires |p| < 0x1_0000 && |modes| == GPIO_COUNT
    ensures v.EmptySignal? || v.Queued? || v.NoMemory? <==> FirmwareAccepts(p, modes)
    ensures v.EmptySignal? <==> FirmwareAccepts(p, modes) && HeaderOf(p).signalLen == 0
    ensures v.NoMemory? ==> !mallocOk
    ensures v.Queued? ==> mallocOk && v.item == HeaderOf(p)
    ensures v.WrongMode? <==> |p| >= FIXED_SIZE
                              && !(HeaderOf(p).gpio < GPIO_COUNT && modes[HeaderOf(p).gpio] == MODE_SIGNAL)
  {
    hide FromLe, EdgeAt, EdgesIn, EdgeAccepted;
    if |p| < FIXED_SIZE {
      return InvalidArg;
    }
    var h := HeaderOf(p);
    if h.gpio >= GPIO_COUNT || modes[h.gpio] != MODE_SIGNAL {
      return WrongMode;
    }
    if h.repeatCount == 0 || h.repeatCount > 100 || h.repeatGapUs > 100000 {
      return InvalidArg;
    }
    var available := |p| - FIXED_SIZE;
    if h.signalLen > available / 5 || available != h.signalLen * 5 {
      return InvalidArg;
    }
    var signalDurationUs := SumDurations(h.signalData, h.signalLen);
    if signalDurationUs == U64 - 1 {
      return InvalidArg;
    }
    var totalDurationUs := TotalOf(signalDurationUs, h.repeatCount, h.repeatGapUs);
    if totalDurationUs > 30000000 {
      return InvalidArg;
    }
    if h.signalLen == 0 {
      return EmptySignal;
    }
    if !mallocOk {
      return NoMemory;
    }
    return Queued(h);
  }

  /** The transmit task's check of the carrier; a comparison with NaN is false. */
  predicate CarrierAccepted(carrierHz: nat, duty: Float32.Float) {
    carrierHz > 0 ==>
      && carrierHz <= MAX_CARRIER_HZ
      && match duty
         case Finite(v) => 0.0 < v <= 1.0
         case Infinite(_) => false
         case NaN => true
  }

  // ---- Properties ----------------------------------------------------------------------------------

  lemma EdgeRoundTrip(e: Edge)
    requires EdgeFits(e)
    ensures EdgeAt(PackEdge(e), 0) == e
  {
    LeRoundTrip(e.duration, 4);
    assert PackEdge(e)[1..5] == Le(e.duration, 4);
  }

  lemma EdgeAtConcat(a: seq<byte>, b: seq<byte>, i: nat)
    requires 5 * i + 5 <= |a + b| && |a| % 5 == 0
    ensures EdgeAt(a + b, i) == if i < |a| / 5 then EdgeAt(a, i) else EdgeAt(b, i - |a| / 5)
  {
    if i < |a| / 5 {
      assert (a + b)[5 * i + 1..5 * i + 5] == a[5 * i + 1..5 * i + 5];
    } else {
      var k := i - |a| / 5;
      assert (a + b)[5 * i + 1..5 * i + 5] == b[5 * k + 1..5 * k + 5];
    }
  }

  /** The task reads back exactly the edges that were packed. */
  lemma {:induction false} EdgesRoundTrip(edges: seq<Edge>)
    requires forall i :: 0 <= i < |edges| ==> EdgeFits(edges[i])
    ensures EdgesIn(PackEdges(edges)) == edges
  {
    if edges != [] {
      var n := |edges| - 1;
      var head, last := PackEdges(edges[..n]), PackEdge(edges[n]);
      EdgesRoundTrip(edges[..n]);
      EdgeRoundTrip(edges[n]);
      forall i | 0 <= i <= n ensures EdgesIn(PackEdges(edges))[i] == edges[i] {
        EdgeAtConcat(head, last, i);
        if i < n {
          assert EdgesIn(head)[i] == edges[i];
        }
      }
    }
  }

  lemma HeaderRoundTrip(c: Command)
    requires Fits(c)
    ensures HeaderOf(Payload(c)) == Item(c.gpio, |c.edges|, c.delayUs, c.carrierHz, c.duty, c.repeatCount,
                                         c.repeatGapUs, PackEdges(c.edges))
  {
    hide Le, FromLe, PackEdges;
    var p := Payload(c);
    LeRoundTrip(|c.edges|, 2);
    LeRoundTrip(c.delayUs, 4);
    LeRoundTrip(c.carrierHz, 4);
    LeRoundTrip(c.duty, 4);
    LeRoundTrip(c.repeatCount, 2);
    LeRoundTrip(c.repeatGapUs, 4);
    assert p[2..4] == Le(|c.edges|, 2);
    assert p[4..8] == Le(c.delayUs, 4);
    assert p[8..12] == Le(c.carrierHz, 4);
    assert p[12..16] == Le(c.duty, 4);
    assert p[16..18] == Le(c.repeatCount, 2);
    assert p[18..22] == Le(c.repeatGapUs, 4);
    assert p[22..] == PackEdges(c.edges);
  }

  /** The edges behind the header of a payload. */
  function SignalIn(p: seq<byte>): seq<Edge> {
    if |p| < FIXED_SIZE || (|p| - FIXED_SIZE) % 5 != 0 then [] else EdgesIn(p[FIXED_SIZE..])
  }

  /** The dispatcher accepts the payload, in which it reads the request's own edges, repeat count, gap, delay
      and carrier. */
  ghost predicate DispatchedAs(p: seq<byte>, gpio: nat, r: SignalTxRequest, modes: seq<nat>)
    requires |p| >= FIXED_SIZE && |modes| == GPIO_COUNT
  {
    var h := HeaderOf(p);
    && FirmwareAccepts(p, modes) && SignalIn(p) == r.signal && h.gpio == gpio && h.signalLen == |r.signal|
    && h.delayUs == r.delayUs && h.carrierHz == r.carrierHz && h.repeatCount == r.repeatCount
    && h.repeatGapUs == r.repeatGapUs
  }

  /** Admission refinement. A request that the platform admits, for a pin in signal mode and with a
      delay that fits its field, passes every check of the dispatcher, and the task reads back the
      same edges, repeat count, gap, delay and carrier. */
  lemma {:induction false} AdmittedIsAccepted(gpio: nat, r: SignalTxRequest, modes: seq<nat>)
    requires SchemaAccepts(r) && r.delayUs < 0x1_0000_0000
    requires |modes| == GPIO_COUNT && gpio < GPIO_COUNT && modes[gpio] == MODE_SIGNAL
    ensures Packable(gpio, r) && Fits(CommandOf(gpio, r))
    ensures DispatchedAs(Payload(CommandOf(gpio, r)), gpio, r, modes)
  {
    hide Le, FromLe, PackEdges, EdgesIn, EdgeAt, Payload, HeaderOf, Float32.Encode;
    Float32.EncodeDecodes(r.dutyCycle);
    var c := CommandOf(gpio, r);
    HeaderRoundTrip(c);
    EdgesRoundTrip(r.signal);
    AcceptedEdges(r.signal);
    SignalBehindHeader(Payload(c));
  }

  lemma SignalBehindHeader(p: seq<byte>)
    requires |p| >= FIXED_SIZE
    ensures HeaderOf(p).signalData == p[FIXED_SIZE..]
  {
  }

  lemma AcceptedEdges(edges: seq<Edge>)
    requires forall i :: 0 <= i < |edges| ==> EdgeAccepted(edges[i])
    ensures forall i :: 0 <= i < |edges| ==> EdgeFits(edges[i])
    ensures forall i :: 0 <= i < |edges| ==> EdgeAccepted(EdgeAt(PackEdges(edges), i))
  {
    EdgesRoundTrip(edges);
    forall i | 0 <= i < |edges| ensures EdgeAccepted(EdgeAt(PackEdges(edges), i)) {
      assert EdgesIn(PackEdges(edges))[i] == edges[i];
    }
  }

  /** The schema bounds every field but one: an admitted request can be packed, for any pin that fits a
      byte, exactly when its delay fits 32 bits. */
  lemma AdmittedIsPackable(gpio: nat, r: SignalTxRequest)
    requires SchemaAccepts(r) && gpio < 256
    ensures Packable(gpio, r) <==> r.delayUs < 0x1_0000_0000
  {
    AcceptedEdges(r.signal);
  }

  /** A request that shows it: admitted by the schema, and `struct.pack` raises. */
  lemma LongDelayRaises()
    ensures var r := SignalTxRequest([Edge(1, 500)], 0x1_0000_0000, 0, 0.5, 1, 0);
            SchemaAccepts(r) && !Packable(4, r)
  {
    var signal := [Edge(1, 500)];
    assert signal[1..] == [];
  }

  /** The last check is not implied by the schema. An admitted request reaches the transmitter exactly
      when it has no carrier or its duty cycle does not vanish in a 32-bit float. */
  lemma AdmittedIsTransmitted(gpio: nat, r: SignalTxRequest)
    requires SchemaAccepts(r) && Packable(gpio, r)
    ensures CarrierAccepted(r.carrierHz, Float32.Decode(CommandOf(gpio, r).duty))
            <==> r.carrierHz == 0 || r.dutyCycle > Float32.Half(150)
  {
    hide Float32.Encode, Float32.Decode, Float32.Half;
    Float32.EncodeDecodes(r.dutyCycle);
  }

  /** A request that shows it: admitted by the schema, passed by the dispatcher, refused by the task. */
  lemma {:induction false} TinyDutyRefused(modes: seq<nat>)
    requires |modes| == GPIO_COUNT && modes[4] == MODE_SIGNAL
    ensures var r := SignalTxRequest([Edge(1, 500)], 0, 38000, Float32.Half(150), 1, 0);
      && SchemaAccepts(r) && Packable(4, r) && Fits(CommandOf(4, r))
      && FirmwareAccepts(Payload(CommandOf(4, r)), modes)
      && !CarrierAccepted(r.carrierHz, Float32.Decode(CommandOf(4, r).duty))
  {
    hide Float32.Encode, Float32.Decode, Float32.Half, Payload, HeaderOf, FirmwareAccepts;
    Float32.HalfOrder(0, 150);
    var r := SignalTxRequest([Edge(1, 500)], 0, 38000, Float32.Half(150), 1, 0);
    assert r.signal[1..] == [];
    AdmittedIsAccepted(4, r, modes);
    AdmittedIsTransmitted(4, r);
  }

  /** Conversely, every payload the dispatcher accepts is the encoding of a command within the schema's
      bounds on edges, repetitions, gap and total time. */
  lemma {:induction false} AcceptedIsCommand(p: seq<byte>, modes: seq<nat>) returns (c: Command)
    requires |modes| == GPIO_COUNT && FirmwareAccepts(p, modes) && p[0] == CMD_GPIO_SIGNAL_TX
    ensures Fits(c) && Payload(c) == p
    ensures 1 <= c.repeatCount <= 100 && c.repeatGapUs <= 100000
    ensures forall i :: 0 <= i < |c.edges| ==> EdgeAccepted(c.edges[i])
    ensures TotalDuration(c.edges, c.repeatCount, c.repeatGapUs) <= 30000000
  {
    hide Le, FromLe, PackEdges, EdgeAt, TotalDuration;
    var h := HeaderOf(p);
    FromLeRoundTrip(p[2..4]);
    FromLeRoundTrip(p[4..8]);
    FromLeRoundTrip(p[8..12]);
    FromLeRoundTrip(p[12..16]);
    FromLeRoundTrip(p[16..18]);
    FromLeRoundTrip(p[18..22]);
    c := Command(h.gpio, h.delayUs, h.carrierHz, h.duty, h.repeatCount, h.repeatGapUs, EdgesIn(h.signalData));
    PackedAgain(h.signalData);
    assert p == [p[0]] + ([p[1]] + p[2..4] + p[4..8] + p[8..12] + p[12..16] + p[16..18] + p[18..22]) + p[22..];
  }

  lemma EdgeAgain(data: seq<byte>)
    requires |data| == 5
    ensures EdgeFits(EdgeAt(data, 0)) && PackEdge(EdgeAt(data, 0)) == data
  {
    FromLeRoundTrip(data[1..5]);
    assert Pow256(4) == 0x1_0000_0000;
    assert data == [data[0]] + data[1..5];
  }

  lemma EdgesSplit(head: seq<byte>, last: seq<byte>)
    requires |head| % 5 == 0 && |last| == 5
    ensures EdgesIn(head + last) == EdgesIn(head) + [EdgeAt(last, 0)]
  {
    hide EdgeAt;
    forall i | 0 <= i <= |head| / 5 ensures EdgesIn(head + last)[i] == (EdgesIn(head) + [EdgeAt(last, 0)])[i] {
      EdgeAtConcat(head, last, i);
    }
  }

  lemma {:induction false} PackedAgain(data: seq<byte>)
    requires |data| % 5 == 0
    ensures forall i :: 0 <= i < |EdgesIn(data)| ==> EdgeFits(EdgesIn(data)[i])
    ensures PackEdges(EdgesIn(data)) == data
  {
    if data != [] {
      hide EdgesIn, EdgeAt, EdgeFits, PackEdge;
      var n := |data| / 5 - 1;
      var head, last := data[..5 * n], data[5 * n..];
      assert data == head + last;
      PackedAgain(head);
      EdgesSplit(head, last);
      EdgeAgain(last);
      var edges, e := EdgesIn(head), EdgeAt(last, 0);
      assert (edges + [e])[..|edges|] == edges;
    }
  }
}
