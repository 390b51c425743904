/** The DHT11 line code, decoded from a captured exchange (custom_components/rose/protocols/dht11.py). */
module Dht11 {
  import opened Signals

  /** Readings are kept in integer tenths. */
  datatype Result =
    | Reading(temperature: int, humidity: int)
    | TooFewBits
    | ChecksumMismatch

  const DATA_BITS := 40

  predicate IsResponse(e: Edge) { e.level == 1 && 65 <= e.duration <= 95 }

  predicate IsDataPulse(e: Edge) { e.level == 1 && 10 <= e.duration <= 100 }

  // ---- Bits of a byte, most significant first ----------------------------------------------

  function Weight(k: nat): bv8
    requires k < 8
  {
    [0x80, 0x40, 0x20, 0x10, 8, 4, 2, 1][k]
  }

  predicate BitAt(b: bv8, k: nat)
    requires k < 8
  {
    b & Weight(k) != 0
  }

  function Or(a: bv8, b: bv8): bv8 { a | b }

  /** The bits of `b` before bit `k`. */
  function TopBits(b: bv8, k: nat): bv8
    requires k <= 8
  {
    if k == 0 then 0 else Or(TopBits(b, k - 1), OneBit(b, k - 1))
  }

  function OneBit(b: bv8, k: nat): bv8
    requires k < 8
  {
    if BitAt(b, k) then Weight(k) else 0
  }

  lemma OneBitIsMasked(b: bv8, k: nat)
    requires k < 8
    ensures OneBit(b, k) == b & Weight(k)
  {
    assert k == 0 || k == 1 || k == 2 || k == 3 || k == 4 || k == 5 || k == 6 || k == 7;
  }

  lemma UpperBits(b: bv8)
    ensures TopBits(b, 4) == b & 0xF0
  {
    OneBitIsMasked(b, 0);
    OneBitIsMasked(b, 1);
    OneBitIsMasked(b, 2);
    OneBitIsMasked(b, 3);
    hide OneBit;
    assert TopBits(b, 1) == b & 0x80;
    assert TopBits(b, 2) == b & 0xC0;
    assert TopBits(b, 3) == b & 0xE0;
  }

  /** All eight bits make the byte. */
  lemma TopBitsAll(b: bv8)
    ensures TopBits(b, 8) == b
  {
    UpperBits(b);
    OneBitIsMasked(b, 4);
    OneBitIsMasked(b, 5);
    OneBitIsMasked(b, 6);
    OneBitIsMasked(b, 7);
    hide OneBit;
    assert TopBits(b, 5) == b & 0xF8;
    assert TopBits(b, 6) == b & 0xFC;
    assert TopBits(b, 7) == b & 0xFE;
  }

  /** Set bit `k`, as the source does. */
  function WithBit(b: bv8, k: nat): bv8
    requires k < 8
  {
    b | ((1 as bv8) << (7 - k))
  }

  lemma WithBitIsWeight(b: bv8, k: nat)
    requires k < 8
    ensures WithBit(b, k) == Or(b, Weight(k)) && Or(b, 0) == b
  {
    assert k == 0 || k == 1 || k == 2 || k == 3 || k == 4 || k == 5 || k == 6 || k == 7;
  }

  // ---- The decoder --------------------------------------------------------------------------

  /** The data pulses of a capture: high pulses in the accepted window after the first response pulse. */
  function Collect(edges: seq<Edge>, started: bool): seq<int> {
    if edges == [] then []
    else if !started then Collect(edges[1..], IsResponse(edges[0]))
    else if IsDataPulse(edges[0]) then [edges[0].duration] + Collect(edges[1..], true)
    else Collect(edges[1..], true)
  }

  function ByteOf(pulses: seq<int>): bv8
    requires |pulses| <= 8
  {
    if pulses == [] then 0
    else
      var k := |pulses| - 1;
      Or(ByteOf(pulses[..k]), if pulses[k] > 50 then Weight(k) else 0)
  }

  function ChecksumHolds(f: seq<bv8>): bool
    requires |f| == 5
  {
    ((f[0] as int) + (f[1] as int) + (f[2] as int) + (f[3] as int)) % 256 == f[4] as int
  }

  function Magnitude(b: bv8): int { (b & 0x7F) as int }

  predicate Negative(b: bv8) { b & 0x80 != 0 }

  function ReadingOf(f: seq<bv8>): Result
    requires |f| == 5
  {
    if !ChecksumHolds(f) then ChecksumMismatch
    else
      var t := Magnitude(f[2]) * 10 + (f[3] as int);
      Reading(if Negative(f[2]) then -t else t, (f[0] as int) * 10 + (f[1] as int))
  }

  function Decoded(edges: seq<Edge>): Result {
    var pulses := Collect(edges, false);
    if |pulses| < DATA_BITS then TooFewBits
    else ReadingOf(seq(5, j requires 0 <= j < 5 => ByteOf(pulses[8 * j..8 * j + 8])))
  }

  /** The first loop: stop at forty pulses or at the end of the capture. */
  method CollectPulses(edges: seq<Edge>) returns (highPulses: seq<int>)
    ensures var all := Collect(edges, false); highPulses == if |all| < DATA_BITS then all else all[..DATA_BITS]
  {
    highPulses := [];
    var started := false;
    var i := 0;
    while i < |edges|
      invariant i <= |edges| && |highPulses| <= DATA_BITS
      invariant i < |edges| ==> |highPulses| < DATA_BITS
      invariant highPulses + Collect(edges[i..], started) == Collect(edges, false)
    {
      var edge := edges[i];
      assert edges[i..][1..] == edges[i + 1..];
      i := i + 1;
      if edge.level != 1 {
        continue;
      }
      if !started {
        started := 65 <= edge.duration <= 95;
        continue;
      }
      if 10 <= edge.duration <= 100 {
        highPulses := highPulses + [edge.duration];
      }
      if |highPulses| == DATA_BITS {
        break;
      }
    }
  }

  lemma ByteOfGrows(pulses: seq<int>, from: nat, to: nat)
    requires from <= to < |pulses| && to - from < 8
    ensures var b, k := ByteOf(pulses[from..to]), to - from;
            ByteOf(pulses[from..to + 1]) == if pulses[to] > 50 then WithBit(b, k) else b
    ensures ByteOf(pulses[to..to]) == 0
  {
    WithBitIsWeight(ByteOf(pulses[from..to]), to - from);
    hide Or, WithBit, Weight;
    assert pulses[from..to + 1][..to - from] == pulses[from..to];
  }

  /** The second loop: OR each long pulse into its bit of the frame. */
  method PackFrame(pulses: seq<int>) returns (frame: array<bv8>)
    requires |pulses| == DATA_BITS
    ensures fresh(frame) && frame.Length == 5
    ensures forall j :: 0 <= j < 5 ==> frame[j] == ByteOf(pulses[8 * j..8 * j + 8])
  {
    hide ByteOf, WithBit;
    frame := new bv8[5](_ => 0);
    ByteOfGrows(pulses, 0, 0);
    for n := 0 to DATA_BITS
      invariant forall j :: 0 <= j < n / 8 ==> frame[j] == ByteOf(pulses[8 * j..8 * j + 8])
      invariant n < DATA_BITS ==> frame[n / 8] == ByteOf(pulses[8 * (n / 8)..n])
      invariant forall j :: n / 8 < j < 5 ==> frame[j] == 0
    {
      var j := n / 8;
      ByteOfGrows(pulses, 8 * j, n);
      if pulses[n] > 50 {
        frame[j] := WithBit(frame[j], n % 8);
      }
      if n + 1 < DATA_BITS {
        ByteOfGrows(pulses, n + 1, n + 1);
      }
    }
  }

  method Decode(edges: seq<Edge>) returns (r: Result)
    ensures r == Decoded(edges)
  {
    hide Collect, ByteOf, Magnitude, Negative;
    var highPulses := CollectPulses(edges);
    if |highPulses| != DATA_BITS {
      return TooFewBits;
    }
    var frame := PackFrame(highPulses);
    ghost var pulses := Collect(edges, false);
    forall j | 0 <= j < 5 ensures pulses[8 * j..8 * j + 8] == highPulses[8 * j..8 * j + 8] {
    }
    assert frame[..] == seq(5, j requires 0 <= j < 5 => ByteOf(pulses[8 * j..8 * j + 8]));
    if ((frame[0] as int) + (frame[1] as int) + (frame[2] as int) + (frame[3] as int)) % 256 != frame[4] as int {
      return ChecksumMismatch;
    }
    var humidity := (frame[0] as int) * 10 + (frame[1] as int);
    var temperature := Magnitude(frame[2]) * 10 + (frame[3] as int);
    if Negative(frame[2]) {
      temperature := -temperature;
    }
    return Reading(temperature, humidity);
  }

  // ---- What a sensor puts on the line ---------------------------------------------------------

  /** One data bit as it appears on the line: whatever the decoder must skip, then the bit's pulse. */
  datatype BitWindow = BitWindow(gap: seq<Edge>, pulse: int)

  /** A whole exchange: noise, the response pulse, the bits, and anything after them. */
  datatype Exchange = Exchange(lead: seq<Edge>, response: int, bits: seq<BitWindow>, tail: seq<Edge>)

  ghost predicate Plausible(x: Exchange) {
    && (forall e :: e in x.lead ==> !IsResponse(e))
    && 65 <= x.response <= 95
    && (forall i, e :: 0 <= i < |x.bits| && e in x.bits[i].gap ==> !IsDataPulse(e))
    && (forall i :: 0 <= i < |x.bits| ==> 10 <= x.bits[i].pulse <= 100)
  }

  function LineOf(bits: seq<BitWindow>): seq<Edge> {
    if bits == [] then [] else bits[0].gap + [Edge(1, bits[0].pulse)] + LineOf(bits[1..])
  }

  function Line(x: Exchange): seq<Edge> {
    x.lead + [Edge(1, x.response)] + LineOf(x.bits) + x.tail
  }

  /** The exchange carries these bytes: up to 50 us is a 0, longer is a 1, most significant bit first. */
  ghost predicate CarriesBytes(x: Exchange, bytes: seq<bv8>) {
    && |bytes| == 5 && |x.bits| == DATA_BITS
    && forall i :: 0 <= i < DATA_BITS ==> (x.bits[i].pulse > 50 <==> BitAt(bytes[i / 8], i % 8))
  }

  /** Edges that the decoder ignores in its current state leave it where it was. */
  lemma {:induction false} SkipNoise(noise: seq<Edge>, rest: seq<Edge>, started: bool)
    requires forall e :: e in noise ==> if started then !IsDataPulse(e) else !IsResponse(e)
    ensures Collect(noise + rest, started) == Collect(rest, started)
  {
    if noise == [] {
      assert noise + rest == rest;
    } else {
      assert (noise + rest)[1..] == noise[1..] + rest;
      SkipNoise(noise[1..], rest, started);
    }
  }

  lemma {:induction false} CollectBits(bits: seq<BitWindow>, tail: seq<Edge>)
    requires forall i, e :: 0 <= i < |bits| && e in bits[i].gap ==> !IsDataPulse(e)
    requires forall i :: 0 <= i < |bits| ==> 10 <= bits[i].pulse <= 100
    ensures |Collect(LineOf(bits) + tail, true)| >= |bits|
    ensures forall i :: 0 <= i < |bits| ==> Collect(LineOf(bits) + tail, true)[i] == bits[i].pulse
  {
    if bits != [] {
      hide IsDataPulse;
      var rest := LineOf(bits[1..]) + tail;
      var pulse := [Edge(1, bits[0].pulse)];
      assert LineOf(bits) + tail == bits[0].gap + (pulse + rest);
      SkipNoise(bits[0].gap, pulse + rest, true);
      assert (pulse + rest)[1..] == rest;
      CollectBits(bits[1..], tail);
    }
  }

  lemma {:induction false} PulsesMakeByte(pulses: seq<int>, b: bv8)
    requires |pulses| <= 8
    requires forall k :: 0 <= k < |pulses| ==> (pulses[k] > 50 <==> BitAt(b, k))
    ensures ByteOf(pulses) == TopBits(b, |pulses|)
  {
    if pulses != [] {
      hide BitAt, Weight, Or;
      PulsesMakeByte(pulses[..|pulses| - 1], b);
    }
  }

  /** Decoding is exact under jitter: any exchange that carries five bytes is decoded to them, and
      yields a reading exactly when their checksum holds. */
  lemma ExchangeDecodes(x: Exchange, bytes: seq<bv8>)
    requires Plausible(x) && CarriesBytes(x, bytes)
    ensures Decoded(Line(x)) == ReadingOf(bytes)
    ensures Decoded(Line(x)).Reading? <==> ChecksumHolds(bytes)
    ensures Decoded(Line(x)) ==
              ReadingIn(bytes[0] as int, bytes[1] as int, bytes[2] as int, bytes[3] as int, bytes[4] as int)
  {
    ReadingIs(bytes);
    hide ReadingIn;
    hide ByteOf, ReadingOf, BitAt, TopBits;
    var data := LineOf(x.bits) + x.tail;
    var response := [Edge(1, x.response)];
    assert Line(x) == x.lead + (response + data);
    SkipNoise(x.lead, response + data, false);
    assert (response + data)[1..] == data;
    CollectBits(x.bits, x.tail);
    var pulses := Collect(Line(x), false);
    forall j | 0 <= j < 5 ensures ByteOf(pulses[8 * j..8 * j + 8]) == bytes[j] {
      forall k | 0 <= k < 8 ensures pulses[8 * j..8 * j + 8][k] > 50 <==> BitAt(bytes[j], k) {
        assert (8 * j + k) / 8 == j && (8 * j + k) % 8 == k;
      }
      PulsesMakeByte(pulses[8 * j..8 * j + 8], bytes[j]);
      TopBitsAll(bytes[j]);
    }
    assert seq(5, j requires 0 <= j < 5 => ByteOf(pulses[8 * j..8 * j + 8])) == bytes;
    assert ReadingOf(bytes).Reading? <==> ChecksumHolds(bytes) by { ReadingIffChecksum(bytes); }
  }

  /** What five numbers say: humidity in tenths from the first two, temperature in tenths from the next two,
      below zero when the third has its highest bit, if the last is the sum of the others modulo 256. */
  function ReadingIn(b0: int, b1: int, b2: int, b3: int, b4: int): Result {
    if (b0 + b1 + b2 + b3) % 256 != b4 then ChecksumMismatch
    else if b2 >= 128 then Reading(-((b2 - 128) * 10 + b3), b0 * 10 + b1)
    else Reading(b2 * 10 + b3, b0 * 10 + b1)
  }

  lemma ReadingIs(f: seq<bv8>)
    requires |f| == 5
    ensures ReadingOf(f) == ReadingIn(f[0] as int, f[1] as int, f[2] as int, f[3] as int, f[4] as int)
  {
    SignBit(f[2]);
    hide Magnitude, Negative, ChecksumHolds;
    SumHolds(f);
  }

  lemma SumHolds(f: seq<bv8>)
    requires |f| == 5
    ensures ChecksumHolds(f) <==>
              ((f[0] as int) + (f[1] as int) + (f[2] as int) + (f[3] as int)) % 256 == f[4] as int
  {
  }

  lemma SignBit(b: bv8)
    ensures Negative(b) <==> (b as int) >= 128
    ensures Magnitude(b) == if (b as int) >= 128 then (b as int) - 128 else b as int
  {
    assert Negative(b) <==> b >= 0x80;
    assert b >= 0x80 ==> b & 0x7F == b - 0x80;
    assert b < 0x80 ==> b & 0x7F == b;
  }

  lemma ReadingIffChecksum(f: seq<bv8>)
    requires |f| == 5
    ensures ReadingOf(f).Reading? <==> ChecksumHolds(f)
    ensures ReadingOf(f) != TooFewBits
  {
    hide Magnitude, Negative, ChecksumHolds;
  }

  /** Conversely every capture the decoder takes for complete is an exchange of forty bits. */
  lemma CompleteIsExchange(edges: seq<Edge>) returns (x: Exchange)
    requires Decoded(edges) != TooFewBits
    ensures Plausible(x) && |x.bits| == DATA_BITS && Line(x) == edges
  {
    x := SplitLead(edges, DATA_BITS);
  }

  lemma {:induction false} SplitLead(edges: seq<Edge>, n: nat) returns (x: Exchange)
    requires n > 0 && |Collect(edges, false)| >= n
    ensures Plausible(x) && |x.bits| == n && Line(x) == edges
  {
    if IsResponse(edges[0]) {
      var bits, tail := SplitBits(edges[1..], n);
      x := Exchange([], edges[0].duration, bits, tail);
      assert edges == [edges[0]] + edges[1..];
    } else {
      var y := SplitLead(edges[1..], n);
      x := y.(lead := [edges[0]] + y.lead);
      assert edges == [edges[0]] + edges[1..];
      assert Line(x) == [edges[0]] + Line(y);
    }
  }

  lemma {:induction false} SplitBits(edges: seq<Edge>, n: nat) returns (bits: seq<BitWindow>, tail: seq<Edge>)
    requires |Collect(edges, true)| >= n
    ensures |bits| == n && LineOf(bits) + tail == edges
    ensures forall i, e :: 0 <= i < |bits| && e in bits[i].gap ==> !IsDataPulse(e)
    ensures forall i :: 0 <= i < |bits| ==> 10 <= bits[i].pulse <= 100
  {
    if n == 0 {
      bits, tail := [], edges;
    } else if IsDataPulse(edges[0]) {
      var more;
      more, tail := SplitBits(edges[1..], n - 1);
      bits := [BitWindow([], edges[0].duration)] + more;
      assert edges == [edges[0]] + edges[1..];
    } else {
      var more;
      more, tail := SplitBits(edges[1..], n);
      var first := more[0];
      bits := [first.(gap := [edges[0]] + first.gap)] + more[1..];
      assert edges == [edges[0]] + edges[1..];
      assert LineOf(bits) == [edges[0]] + LineOf(more);
    }
  }
}
