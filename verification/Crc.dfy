/** The frame checksum (bridge/src/protocol.py, src/send_task.c): the CRC-16 of section 6.2.2 of the
    MODBUS over Serial Line guide V1.02, polynomial 0xA001, initial value 0xFFFF. */
module Crc {

  type word = bv16

  // ---- Operations on the register ------------------------------------------------------------------

  function Xor(a: word, b: word): word { a ^ b }

  function Widen(b: bv8): word { b as bv16 }

  function BitWord(bit: bool): word { if bit then 1 else 0 }

  /** One turn of the inner loop. */
  function Shift(crc: word): word {
    if crc & 1 == 1 then (crc >> 1) ^ 0xA001 else crc >> 1
  }

  /** `v` moved up one place, with a bit put in the lowest. */
  function Append(v: word, bit: bool): word { (v << 1) | BitWord(bit) }

  function Halve(v: word): word { v >> 1 }

  function LowBit(v: word): bool { v & 1 == 1 }

  /** All places from `n` up. */
  function HighMask(n: nat): word
    requires n <= 16
  {
    [0xFFFF, 0xFFFE, 0xFFFC, 0xFFF8, 0xFFF0, 0xFFE0, 0xFFC0, 0xFF80, 0xFF00,
     0xFE00, 0xFC00, 0xF800, 0xF000, 0xE000, 0xC000, 0x8000, 0][n]
  }

  /** `v` occupies only the `n` lowest places. */
  predicate Narrow(v: word, n: nat)
    requires n <= 16
  {
    v & HighMask(n) == 0
  }

  // ---- The loop --------------------------------------------------------------------------------------

  function Shifts(crc: word, n: nat): word
    decreases n
  {
    if n == 0 then crc else Shifts(Shift(crc), n - 1)
  }

  /** One turn of the outer loop. */
  function FeedByte(crc: word, b: bv8): word {
    Shifts(Xor(crc, Widen(b)), 8)
  }

  function FeedBytes(crc: word, data: seq<bv8>): word {
    if data == [] then crc else FeedByte(FeedBytes(crc, data[..|data| - 1]), data[|data| - 1])
  }

  function Checksum(data: seq<bv8>): word {
    FeedBytes(0xFFFF, data)
  }

  method ShiftOnce(crc: word) returns (r: word)
    ensures r == Shift(crc)
  {
    if crc & 1 == 1 {
      r := (crc >> 1) ^ 0xA001;
    } else {
      r := crc >> 1;
    }
  }

  method CalculateCrc(data: seq<bv8>) returns (crc: word)
    ensures crc == Checksum(data)
  {
    hide Xor, Widen, Shift;
    crc := 0xFFFF;
    for i := 0 to |data|
      invariant crc == FeedBytes(0xFFFF, data[..i])
    {
      crc := Xor(crc, Widen(data[i]));
      ghost var mixed := crc;
      for j := 0 to 8
        invariant Shifts(mixed, 8) == Shifts(crc, 8 - j)
      {
        crc := ShiftOnce(crc);
      }
      assert data[..i + 1][..i] == data[..i];
    }
    assert data[..|data|] == data;
  }

  /** The bytes a frame's checksum covers on the host: the header without the CRC field, then the payload. */
  function Covered(version: bv8, msgType: bv8, length: word, cmdId: word, payload: seq<bv8>): seq<bv8> {
    [version, msgType, LowByte(length), HighByte(length), LowByte(cmdId), HighByte(cmdId)] + payload
  }

  function LowByte(w: word): bv8 { (w & 0xFF) as bv8 }

  function HighByte(w: word): bv8 { (w >> 8) as bv8 }

  // ---- The bit-serial register -------------------------------------------------------------------------

  /** The shift register fed one message bit. */
  function FeedBit(crc: word, bit: bool): word {
    Shift(Xor(crc, BitWord(bit)))
  }

  function FeedBits(crc: word, bits: seq<bool>): word
    decreases bits
  {
    if bits == [] then crc else FeedBits(FeedBit(crc, bits[0]), bits[1..])
  }

  /** The `n` lowest bits of a value, least significant first. */
  function LowBits(w: word, n: nat): (bits: seq<bool>)
    ensures |bits| == n
    decreases n
  {
    if n == 0 then [] else [LowBit(w)] + LowBits(Halve(w), n - 1)
  }

  /** The bits of a message in transmission order: byte by byte, least significant bit first. */
  function MessageBits(data: seq<bv8>): (bits: seq<bool>)
    ensures |bits| == 8 * |data|
  {
    if data == [] then [] else MessageBits(data[..|data| - 1]) + LowBits(Widen(data[|data| - 1]), 8)
  }

  /** A run of at most sixteen bits as a register value, first bit in the lowest place. */
  function Packed(bits: seq<bool>): word {
    if bits == [] then 0 else Append(Packed(bits[1..]), bits[0])
  }

  // ---- Word facts ----------------------------------------------------------------------------------------

  lemma XorAssoc(a: word, b: word, c: word)
    ensures Xor(Xor(a, b), c) == Xor(a, Xor(b, c))
  {
  }

  lemma XorComm(a: word, b: word)
    ensures Xor(a, b) == Xor(b, a)
  {
  }

  lemma XorSelf(a: word)
    ensures Xor(a, a) == 0 && Xor(a, 0) == a
  {
  }

  lemma {:induction false} XorLaws(a: word, b: word, c: word)
    ensures Xor(Xor(a, c), Xor(b, c)) == Xor(a, b)
    ensures Xor(Xor(a, c), b) == Xor(Xor(a, b), c) && Xor(a, Xor(b, c)) == Xor(Xor(a, b), c)
    ensures Xor(Xor(a, b), b) == a && Xor(a, 0) == a
  {
    hide Xor;
    XorAssoc(a, b, c);
    XorAssoc(a, c, b);
    XorAssoc(a, b, b);
    XorComm(b, c);
    XorSelf(b);
    XorSelf(a);
    XorAssoc(a, c, Xor(b, c));
    XorAssoc(c, c, b);
    XorSelf(c);
    XorComm(0, b);
  }

  function Feedback(low: bool): word { if low then 0xA001 else 0 }

  lemma ShiftForm(a: word, b: word)
    ensures Shift(a) == Xor(Halve(a), Feedback(LowBit(a)))
    ensures Halve(Xor(a, b)) == Xor(Halve(a), Halve(b))
    ensures LowBit(Xor(a, b)) == (LowBit(a) != LowBit(b))
  {
    XorSelf(a >> 1);
  }

  lemma FeedbackXor(p: bool, q: bool)
    ensures Feedback(p != q) == Xor(Feedback(p), Feedback(q))
  {
  }

  lemma {:induction false} ShiftLinear(a: word, b: word)
    ensures Shift(Xor(a, b)) == Xor(Shift(a), Shift(b))
  {
    hide Xor, Shift, Halve, LowBit, Feedback;
    ShiftForm(a, b);
    ShiftForm(b, b);
    ShiftForm(Xor(a, b), b);
    var ha, hb, fa, fb := Halve(a), Halve(b), Feedback(LowBit(a)), Feedback(LowBit(b));
    FeedbackXor(LowBit(a), LowBit(b));
    XorAssoc(Xor(ha, hb), fa, fb);
    XorLaws(ha, fa, hb);
    XorAssoc(Xor(ha, fa), hb, fb);
  }

  /** The register never loses information: the polynomial has its highest term, so a step is undone. */
  function Unshift(crc: word): word {
    if crc & 0x8000 != 0 then ((crc ^ 0xA001) << 1) | 1 else crc << 1
  }

  lemma Halves(a: word)
    ensures (a >> 1) & 0x8000 == 0 && ((a >> 1) ^ 0xA001) & 0x8000 != 0
    ensures ((a >> 1) ^ 0xA001) ^ 0xA001 == a >> 1
    ensures a & 1 == 1 ==> ((a >> 1) << 1) | 1 == a
    ensures a & 1 != 1 ==> (a >> 1) << 1 == a
  {
  }

  lemma Doubles(a: word)
    ensures ((a << 1) | 1) & 1 == 1 && (a << 1) & 1 != 1
    ensures a & 0x8000 == 0 ==> ((a << 1) | 1) >> 1 == a && (a << 1) >> 1 == a
    ensures a & 0x8000 != 0 ==> (a ^ 0xA001) & 0x8000 == 0
    ensures (a ^ 0xA001) ^ 0xA001 == a
    ensures (a << 1) | 0 == a << 1 && (a << 1) | 0 == 0 ^ (a << 1) && (a << 1) | 1 == 1 ^ (a << 1)
  {
  }

  lemma UnshiftShift(a: word)
    ensures Unshift(Shift(a)) == a
  {
    Halves(a);
  }

  lemma {:induction false} ShiftUnshift(a: word)
    ensures Shift(Unshift(a)) == a
  {
    if a & 0x8000 != 0 {
      Doubles(a ^ 0xA001);
      Doubles(a);
      ShiftOdd(a ^ 0xA001);
    } else {
      ShiftEven(a);
    }
  }

  lemma ShiftEven(v: word)
    requires v & 0x8000 == 0
    ensures Shift(v << 1) == v
  {
    Doubles(v);
  }

  lemma ShiftOdd(v: word)
    requires v & 0x8000 == 0
    ensures Shift((v << 1) | 1) == v ^ 0xA001
  {
    Doubles(v);
  }

  lemma HighMaskStep(n: nat)
    requires 0 < n <= 16
    ensures HighMask(n) == HighMask(n - 1) << 1 && HighMask(n - 1) & 0x8000 == 0x8000
  {
    assert n == 1 || n == 2 || n == 3 || n == 4 || n == 5 || n == 6 || n == 7 || n == 8 || n == 9
        || n == 10 || n == 11 || n == 12 || n == 13 || n == 14 || n == 15 || n == 16;
  }

  lemma MaskHalf(w: word, m: word)
    ensures w & (m << 1) == 0 && m & 0x8000 == 0x8000 ==> (w >> 1) & m == 0
    ensures w & m == 0 ==> (w << 1) & (m << 1) == 0 && ((w << 1) | 1) & (m << 1) == 0
    ensures w & m == 0 && m & 0x8000 == 0x8000 ==> w & 0x8000 == 0
  {
  }

  lemma AppendHalf(w: word)
    ensures Append(Halve(w), LowBit(w)) == w
  {
    Halves(w);
    Doubles(w >> 1);
  }

  lemma NarrowHalf(w: word, n: nat)
    requires 0 < n <= 16 && Narrow(w, n)
    ensures Narrow(Halve(w), n - 1) && Append(Halve(w), LowBit(w)) == w
  {
    hide HighMask, Append, LowBit;
    HighMaskStep(n);
    MaskHalf(w, HighMask(n - 1));
    AppendHalf(w);
  }

  lemma AppendFacts(v: word, bit: bool)
    requires v & 0x8000 == 0
    ensures Halve(Append(v, bit)) == v && LowBit(Append(v, bit)) == bit
    ensures Append(v, bit) == Xor(BitWord(bit), v << 1)
  {
    Doubles(v);
  }

  lemma {:induction false} NarrowAppend(v: word, bit: bool, n: nat)
    requires n < 16 && Narrow(v, n)
    ensures Narrow(Append(v, bit), n + 1)
    ensures Halve(Append(v, bit)) == v && LowBit(Append(v, bit)) == bit
    ensures Append(v, bit) == Xor(BitWord(bit), v << 1) && Shift(v << 1) == v
  {
    hide HighMask, Halve, LowBit, Xor, Shift;
    HighMaskStep(n + 1);
    MaskHalf(v, HighMask(n));
    AppendFacts(v, bit);
    ShiftEven(v);
    Doubles(v);
  }

  /** Mixing a bit in before a shift, or the bits after it behind the shift, comes to the same. */
  lemma {:induction false} MixThenShift(crc: word, rest: word, bit: bool, n: nat)
    requires n < 16 && Narrow(rest, n)
    ensures Shift(Xor(crc, Append(rest, bit))) == Xor(FeedBit(crc, bit), rest)
  {
    hide Xor, Shift, BitWord, Narrow, Append;
    NarrowAppend(rest, bit, n);
    XorLaws(crc, BitWord(bit), rest << 1);
    ShiftLinear(Xor(crc, BitWord(bit)), rest << 1);
  }

  // ---- The byte loop is the register -----------------------------------------------------------------------

  lemma {:induction false} PackedNarrow(bits: seq<bool>)
    requires |bits| <= 16
    ensures Narrow(Packed(bits), |bits|)
  {
    if bits != [] {
      hide Narrow, Append;
      PackedNarrow(bits[1..]);
      NarrowAppend(Packed(bits[1..]), bits[0], |bits| - 1);
    }
  }

  /** Up to sixteen bits can be mixed into the register at once. */
  lemma {:induction false} FeedBitsAtOnce(crc: word, bits: seq<bool>)
    requires |bits| <= 16
    ensures FeedBits(crc, bits) == Shifts(Xor(crc, Packed(bits)), |bits|)
    decreases bits
  {
    hide Xor, Shift, FeedBit, Append, Narrow;
    if bits == [] {
      XorLaws(crc, 0, 0);
    } else {
      PackedNarrow(bits[1..]);
      MixThenShift(crc, Packed(bits[1..]), bits[0], |bits| - 1);
      FeedBitsAtOnce(FeedBit(crc, bits[0]), bits[1..]);
    }
  }

  lemma {:induction false} PackedLowBits(w: word, n: nat)
    requires n <= 16 && Narrow(w, n)
    ensures Packed(LowBits(w, n)) == w
    decreases n
  {
    if n > 0 {
      hide Narrow, Append, Halve, LowBit;
      NarrowHalf(w, n);
      PackedLowBits(Halve(w), n - 1);
      assert LowBits(w, n)[1..] == LowBits(Halve(w), n - 1);
    }
  }

  lemma WidenNarrow(b: bv8, c: bv8)
    ensures Narrow(Widen(b), 8)
    ensures Widen(b) == Widen(c) ==> b == c
  {
  }

  lemma {:induction false} FeedBitsConcat(crc: word, x: seq<bool>, y: seq<bool>)
    ensures FeedBits(crc, x + y) == FeedBits(FeedBits(crc, x), y)
    decreases x
  {
    hide FeedBit;
    if x == [] {
      assert x + y == y;
    } else {
      assert (x + y)[1..] == x[1..] + y;
      FeedBitsConcat(FeedBit(crc, x[0]), x[1..], y);
    }
  }

  lemma ByteIsBits(crc: word, b: bv8)
    ensures FeedByte(crc, b) == FeedBits(crc, LowBits(Widen(b), 8))
  {
    hide Xor, Widen, Narrow, FeedBits, Shifts;
    WidenNarrow(b, b);
    PackedLowBits(Widen(b), 8);
    FeedBitsAtOnce(crc, LowBits(Widen(b), 8));
  }

  /** The byte loop is the bit-serial register: the checksum is what the register holds after the
      message's bits, each byte least significant bit first. */
  lemma {:induction false} BytesAreBits(crc: word, data: seq<bv8>)
    ensures FeedBytes(crc, data) == FeedBits(crc, MessageBits(data))
  {
    hide FeedByte, FeedBit, LowBits, Widen;
    if data != [] {
      var n := |data| - 1;
      BytesAreBits(crc, data[..n]);
      FeedBitsConcat(crc, MessageBits(data[..n]), LowBits(Widen(data[n]), 8));
      ByteIsBits(FeedBytes(crc, data[..n]), data[n]);
    }
  }

  // ---- Error bursts -------------------------------------------------------------------------------------------

  lemma {:induction false} ShiftsInjective(a: word, b: word, n: nat)
    requires Shifts(a, n) == Shifts(b, n)
    ensures a == b
    decreases n
  {
    hide Shift, Unshift;
    if n > 0 {
      ShiftsInjective(Shift(a), Shift(b), n - 1);
      UnshiftShift(a);
      UnshiftShift(b);
    }
  }

  lemma XorInjective(a: word, b: word, c: word)
    requires Xor(a, c) == Xor(b, c)
    ensures a == b
  {
    hide Xor;
    XorLaws(a, c, 0);
    XorLaws(b, c, 0);
  }

  lemma {:induction false} FeedBitsInjective(a: word, b: word, bits: seq<bool>)
    requires FeedBits(a, bits) == FeedBits(b, bits)
    ensures a == b
    decreases bits
  {
    hide Xor, Shift, Unshift, BitWord;
    if bits != [] {
      FeedBitsInjective(FeedBit(a, bits[0]), FeedBit(b, bits[0]), bits[1..]);
      var w := BitWord(bits[0]);
      UnshiftShift(Xor(a, w));
      UnshiftShift(Xor(b, w));
      XorInjective(a, b, w);
    }
  }

  lemma {:induction false} PackedInjective(x: seq<bool>, y: seq<bool>)
    requires |x| == |y| <= 16 && Packed(x) == Packed(y)
    ensures x == y
  {
    hide Narrow, Append, Halve, LowBit, Xor, Shift, BitWord;
    if x != [] {
      PackedNarrow(x[1..]);
      PackedNarrow(y[1..]);
      NarrowAppend(Packed(x[1..]), x[0], |x| - 1);
      NarrowAppend(Packed(y[1..]), y[0], |y| - 1);
      PackedInjective(x[1..], y[1..]);
      assert x == [x[0]] + x[1..] && y == [y[0]] + y[1..];
    }
  }

  /** Two streams that differ only inside a window of at most sixteen bits leave different registers. */
  lemma WindowDetected(crc: word, before: seq<bool>, x: seq<bool>, y: seq<bool>, after: seq<bool>)
    requires |x| == |y| <= 16 && x != y
    ensures FeedBits(crc, before + x + after) != FeedBits(crc, before + y + after)
  {
    hide FeedBits, Packed, Shifts, Xor;
    var r := FeedBits(crc, before);
    FeedBitsConcat(crc, before, x);
    FeedBitsConcat(crc, before, y);
    FeedBitsConcat(crc, before + x, after);
    FeedBitsConcat(crc, before + y, after);
    if FeedBits(crc, before + x + after) == FeedBits(crc, before + y + after) {
      FeedBitsInjective(FeedBits(r, x), FeedBits(r, y), after);
      FeedBitsAtOnce(r, x);
      FeedBitsAtOnce(r, y);
      ShiftsInjective(Xor(r, Packed(x)), Xor(r, Packed(y)), |x|);
      XorComm(r, Packed(x));
      XorComm(r, Packed(y));
      XorInjective(Packed(x), Packed(y), r);
      PackedInjective(x, y);
    }
  }

  lemma SplitLast(p: seq<bool>, x: seq<bool>, q: seq<bool>, y: seq<bool>)
    requires |p| == |q| && p + x == q + y
    ensures p == q && x == y
  {
    assert (p + x)[..|p|] == p && (q + y)[..|q|] == q;
    assert (p + x)[|p|..] == x && (q + y)[|q|..] == y;
  }

  lemma {:induction false} MessageBitsInjective(a: seq<bv8>, b: seq<bv8>)
    requires |a| == |b| && MessageBits(a) == MessageBits(b)
    ensures a == b
  {
    hide LowBits, Packed, Widen, Narrow;
    if a != [] {
      var n := |a| - 1;
      var x, y := LowBits(Widen(a[n]), 8), LowBits(Widen(b[n]), 8);
      SplitLast(MessageBits(a[..n]), x, MessageBits(b[..n]), y);
      MessageBitsInjective(a[..n], b[..n]);
      WidenNarrow(a[n], b[n]);
      WidenNarrow(b[n], b[n]);
      PackedLowBits(Widen(a[n]), 8);
      PackedLowBits(Widen(b[n]), 8);
      assert a == a[..n] + [a[n]] && b == b[..n] + [b[n]];
    }
  }

  lemma SplitWindow(x: seq<bool>, y: seq<bool>, lo: nat, hi: nat)
    requires |x| == |y| && lo <= hi <= |x|
    requires forall k :: 0 <= k < |x| && !(lo <= k < hi) ==> x[k] == y[k]
    ensures x == x[..lo] + x[lo..hi] + x[hi..] && y == x[..lo] + y[lo..hi] + x[hi..]
  {
    assert x[..lo] == y[..lo];
    assert x[hi..] == y[hi..];
  }

  /** Every error burst of at most sixteen bits is detected: two different messages of the same length
      whose bits differ only at places `start`, ..., `start + 15` have different checksums. */
  lemma BurstDetected(a: seq<bv8>, b: seq<bv8>, start: nat)
    requires |a| == |b| && a != b
    requires forall k :: 0 <= k < 8 * |a| && !(start <= k < start + 16) ==> MessageBits(a)[k] == MessageBits(b)[k]
    ensures Checksum(a) != Checksum(b)
  {
    hide FeedBits, FeedBytes, MessageBits;
    var x, y := MessageBits(a), MessageBits(b);
    if x == y {
      MessageBitsInjective(a, b);
    }
    var lo := if start < |x| then start else |x|;
    var hi := if start + 16 < |x| then start + 16 else |x|;
    SplitWindow(x, y, lo, hi);
    WindowDetected(0xFFFF, x[..lo], x[lo..hi], y[lo..hi], x[hi..]);
    BytesAreBits(0xFFFF, a);
    BytesAreBits(0xFFFF, b);
  }

  lemma {:induction false} MessageBitsAt(data: seq<bv8>, k: nat)
    requires k < 8 * |data|
    ensures MessageBits(data)[k] == LowBits(Widen(data[k / 8]), 8)[k % 8]
  {
    hide LowBits, Widen;
    var n := |data| - 1;
    if k < 8 * n {
      MessageBitsAt(data[..n], k);
    }
  }

  lemma BytesDiffer(v: word, w: word)
    requires LowByte(v) == LowByte(w) && HighByte(v) == HighByte(w)
    ensures v == w
  {
  }

  /** A frame whose command id is altered never keeps its checksum. */
  lemma CommandIdProtected(version: bv8, msgType: bv8, length: word, c: word, d: word, payload: seq<bv8>)
    requires c != d
    ensures Checksum(Covered(version, msgType, length, c, payload))
      != Checksum(Covered(version, msgType, length, d, payload))
  {
    hide LowByte, HighByte, Checksum, MessageBits, LowBits;
    var a, b := Covered(version, msgType, length, c, payload), Covered(version, msgType, length, d, payload);
    if a == b {
      assert a[4] == b[4] && a[5] == b[5];
      BytesDiffer(c, d);
    }
    forall k | 0 <= k < 8 * |a| && !(32 <= k < 48) ensures MessageBits(a)[k] == MessageBits(b)[k] {
      MessageBitsAt(a, k);
      MessageBitsAt(b, k);
    }
    BurstDetected(a, b, 32);
  }

  // ---- The check value ---------------------------------------------------------------------------------------

  lemma FeedIs(crc: word, b: bv8)
    ensures FeedByte(crc, b) == Shift(Shift(Shift(Shift(Shift(Shift(Shift(Shift(crc ^ Widen(b)))))))))
  {
    hide Shift;
    var c := Xor(crc, Widen(b));
    assert Shifts(c, 8) == Shifts(Shift(Shift(c)), 6);
    assert Shifts(Shift(Shift(c)), 6) == Shifts(Shift(Shift(Shift(Shift(c)))), 4);
    var d := Shift(Shift(Shift(Shift(c))));
    assert Shifts(d, 4) == Shifts(Shift(Shift(d)), 2);
    assert Shifts(Shift(Shift(d)), 2) == Shift(Shift(Shift(Shift(d))));
  }

  /** The register goes through these values. */
  lemma {:induction false} FeedThrough(data: seq<bv8>, registers: seq<word>)
    requires |registers| == |data| + 1
    requires forall i :: 0 <= i < |data| ==> FeedByte(registers[i], data[i]) == registers[i + 1]
    ensures FeedBytes(registers[0], data) == registers[|data|]
  {
    if data != [] {
      hide FeedByte;
      FeedThrough(data[..|data| - 1], registers[..|data|]);
    }
  }

  const DIGITS: seq<bv8> := [0x31, 0x32, 0x33, 0x34, 0x35, 0x36, 0x37, 0x38, 0x39]

  const REGISTERS: seq<word> := [
    0xFFFF, 0x947E, 0xF595, 0x7A75, 0x30BA, 0xA471, 0x32E4, 0x9D73, 0x37DD, 0x4B37]

  /** Nothing has the checksum 0xFFFF, and the digits 1 to 9 in ASCII have the published check value of this
      code, 0x4B37. */
  lemma CheckValue()
    ensures Checksum([]) == 0xFFFF
    ensures Checksum(DIGITS) == 0x4B37
  {
    hide FeedByte, FeedBytes;
    CheckDigits();
    forall i | 0 <= i < |DIGITS| ensures FeedByte(REGISTERS[i], DIGITS[i]) == REGISTERS[i + 1] {
      assert i == 0 || i == 1 || i == 2 || i == 3 || i == 4 || i == 5 || i == 6 || i == 7 || i == 8;
    }
    FeedThrough(DIGITS, REGISTERS);
    FeedThrough([], [0xFFFF]);
  }

  lemma CheckDigits()
    ensures FeedByte(0xFFFF, 0x31) == 0x947E
    ensures FeedByte(0x947E, 0x32) == 0xF595
    ensures FeedByte(0xF595, 0x33) == 0x7A75
    ensures FeedByte(0x7A75, 0x34) == 0x30BA
    ensures FeedByte(0x30BA, 0x35) == 0xA471
    ensures FeedByte(0xA471, 0x36) == 0x32E4
    ensures FeedByte(0x32E4, 0x37) == 0x9D73
    ensures FeedByte(0x9D73, 0x38) == 0x37DD
    ensures FeedByte(0x37DD, 0x39) == 0x4B37
  {
    hide Shifts;
    FeedIs(0xFFFF, 0x31);
    FeedIs(0x947E, 0x32);
    FeedIs(0xF595, 0x33);
    FeedIs(0x7A75, 0x34);
    FeedIs(0x30BA, 0x35);
    FeedIs(0xA471, 0x36);
    FeedIs(0x32E4, 0x37);
    FeedIs(0x9D73, 0x38);
    FeedIs(0x37DD, 0x39);
  }

  // ---- Linearity --------------------------------------------------------------------------------------------

  function XorBytes(a: seq<bv8>, b: seq<bv8>): (r: seq<bv8>)
    requires |a| == |b|
    ensures |r| == |a|
  {
    if a == [] then [] else XorBytes(a[..|a| - 1], b[..|b| - 1]) + [a[|a| - 1] ^ b[|b| - 1]]
  }

  lemma {:induction false} ShiftsLinear(a: word, b: word, n: nat)
    ensures Shifts(Xor(a, b), n) == Xor(Shifts(a, n), Shifts(b, n))
    decreases n
  {
    hide Xor, Shift;
    if n > 0 {
      ShiftLinear(a, b);
      ShiftsLinear(Shift(a), Shift(b), n - 1);
    }
  }

  lemma MixLinear(a: word, b: word, p: bv8, q: bv8)
    ensures Xor(Xor(a, b), Widen(p ^ q)) == Xor(Xor(a, Widen(p)), Xor(b, Widen(q)))
  {
  }

  lemma {:induction false} FeedByteLinear(a: word, b: word, p: bv8, q: bv8)
    ensures FeedByte(Xor(a, b), p ^ q) == Xor(FeedByte(a, p), FeedByte(b, q))
  {
    hide Xor, Widen, Shifts;
    MixLinear(a, b, p, q);
    ShiftsLinear(Xor(a, Widen(p)), Xor(b, Widen(q)), 8);
  }

  lemma {:induction false} FeedBytesLinear(a: word, b: word, x: seq<bv8>, y: seq<bv8>)
    requires |x| == |y|
    ensures FeedBytes(Xor(a, b), XorBytes(x, y)) == Xor(FeedBytes(a, x), FeedBytes(b, y))
  {
    hide Xor, FeedByte;
    if x != [] {
      var n := |x| - 1;
      assert XorBytes(x, y)[..n] == XorBytes(x[..n], y[..n]);
      FeedBytesLinear(a, b, x[..n], y[..n]);
      FeedByteLinear(FeedBytes(a, x[..n]), FeedBytes(b, y[..n]), x[n], y[n]);
    }
  }

  /** For messages of one length the checksum is affine over XOR. */
  lemma {:induction false} ChecksumAffine(x: seq<bv8>, y: seq<bv8>, z: seq<bv8>)
    requires |x| == |y| == |z|
    ensures Checksum(XorBytes(XorBytes(x, y), z)) == Checksum(x) ^ Checksum(y) ^ Checksum(z)
  {
    hide FeedBytes;
    FeedBytesLinear(0xFFFF, 0xFFFF, x, y);
    FeedBytesLinear(0, 0xFFFF, XorBytes(x, y), z);
    assert Xor(0xFFFF, 0xFFFF) == 0 && Xor(0, 0xFFFF) == 0xFFFF;
  }
}
