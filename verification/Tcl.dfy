/** The TCL air-conditioner infrared code (custom_components/rose/protocols/tcl.py). */
module Tcl {
  import opened Board
  import opened Signals
  import opened SignalAdmission
  import opened Arithmetic
  import Float32
  import RmtPacking

  datatype Mode = Auto | Cool | Heat | Dry | FanOnly
  datatype Fan = FanAuto | FanMin | FanLow | FanMedium | FanHigh

  datatype State = State(
    powerOn: bool, mode: Mode, temperature: int, fan: Fan, swingVertical: bool, swingHorizontal: bool,
    econo: bool, health: bool, turbo: bool, light: bool, timerMinutes: int, auxHeat: bool)

  // ---- Bit fields of a Python integer --------------------------------------------------------

  /** Bits `offset`, ..., `offset + width - 1` of a value. */
  function Field(value: nat, offset: nat, width: nat): nat {
    (value / Pow2(offset)) % Pow2(width)
  }

  /** What is above and below the field of `w` values at `p`, with the field replaced. */
  function Replaced(value: nat, p: nat, w: nat, field: nat): nat
    requires p > 0 && w > 0
  {
    MulMonotone(0, value / p / w, w);
    MulMonotone(0, value / p / w * w + field % w, p);
    (value / p / w * w + field % w) * p + value % p
  }

  /** Clear the masked bits and OR in the field. */
  function SetBits(value: nat, offset: nat, width: nat, field: nat): nat {
    Replaced(value, Pow2(offset), Pow2(width), field)
  }

  function SetBit(value: nat, bit: nat, enabled: bool): nat {
    SetBits(value, bit, 1, if enabled then 1 else 0)
  }

  /** A field that was just set reads back as what was written, cut to its width; setting it to what
      it already holds changes nothing. */
  lemma {:induction false} SetBitsReads(value: nat, offset: nat, width: nat, field: nat)
    ensures Field(SetBits(value, offset, width, field), offset, width) == field % Pow2(width)
    ensures SetBits(value, offset, width, Field(value, offset, width)) == value
  {
    hide Pow2;
    FieldWritten(value, Pow2(offset), Pow2(width), field % Pow2(width));
    FieldRewritten(value, Pow2(offset), Pow2(width));
  }

  lemma {:induction false} FieldWritten(value: nat, p: nat, w: nat, field: nat)
    requires p > 0 && w > 0 && field < w
    ensures (value / p / w * w + field) * p + value % p >= 0
    ensures ((value / p / w * w + field) * p + value % p) / p % w == field
  {
    SplitField(value / p / w, field, value % p, w, p);
  }

  lemma FieldRewritten(value: nat, p: nat, w: nat)
    requires p > 0 && w > 0
    ensures (value / p / w * w + value / p % w % w) * p + value % p == value
  {
    DivMod(value, p);
    DivMod(value / p, w);
    DivUnique(value / p % w, w, 0, value / p % w);
  }

  /** Setting a field leaves every field above it as it was. */
  lemma {:induction false} SetBitsKeepsAbove(
    value: nat, offset: nat, width: nat, field: nat, above: nat, otherWidth: nat)
    ensures Field(SetBits(value, offset, width, field), offset + width + above, otherWidth)
         == Field(value, offset + width + above, otherWidth)
  {
    hide Pow2;
    Pow2Add(offset, width);
    Pow2Add(offset + width, above);
    KeepsHigh(value, Pow2(offset), Pow2(width), field, Pow2(above));
  }

  /** Setting a field leaves every field below it as it was. */
  lemma SetBitsKeepsBelow(value: nat, offset: nat, width: nat, field: nat, other: nat, otherWidth: nat)
    requires other + otherWidth <= offset
    ensures Field(SetBits(value, offset, width, field), other, otherWidth) == Field(value, other, otherWidth)
  {
    hide Pow2;
    var k := offset - other - otherWidth;
    Pow2Add(k, otherWidth);
    Pow2Add(k + otherWidth, other);
    KeepsLow(value, Pow2(offset), Pow2(width), field, Pow2(k), Pow2(otherWidth), Pow2(other));
  }

  lemma {:induction false} KeepsLow(value: nat, p: nat, w: nat, field: nat, x: nat, ow: nat, u: nat)
    requires p > 0 && w > 0 && x > 0 && ow > 0 && u > 0 && p == x * ow * u
    ensures (value / p / w * w + field % w) * p + value % p >= 0
    ensures ((value / p / w * w + field % w) * p + value % p) / u % ow == value / u % ow
  {
    SplitField(value / p / w, field % w, value % p, w, p);
    LowPart((value / p / w * w + field % w) * p + value % p, x, ow, u);
    LowPart(value, x, ow, u);
  }

  lemma {:induction false} KeepsHigh(value: nat, p: nat, w: nat, field: nat, x: nat)
    requires p > 0 && w > 0 && x > 0
    ensures (value / p / w * w + field % w) * p + value % p >= 0
    ensures p * w * x > 0
    ensures ((value / p / w * w + field % w) * p + value % p) / (p * w * x) == value / (p * w * x)
  {
    SplitField(value / p / w, field % w, value % p, w, p);
    HighPart((value / p / w * w + field % w) * p + value % p, p, w, x);
    HighPart(value, p, w, x);
  }

  lemma {:induction false} HighPart(v: nat, p: nat, w: nat, x: nat)
    requires p > 0 && w > 0 && x > 0
    ensures p * w > 0 && p * w * x > 0 && v / (p * w * x) == v / p / w / x
  {
    DivDiv(v, p, w);
    DivDiv(v, p * w, x);
  }

  lemma {:induction false} LowPart(a: nat, x: nat, w: nat, u: nat)
    requires x > 0 && w > 0 && u > 0
    ensures x * w * u > 0 && a / u % w == (a % (x * w * u)) / u % w
  {
    var p := x * w * u;
    var low := a % p;
    DivMod(a, p);
    DivMod(low, u);
    DivMod(low / u, w);
    LowPartAt(a / p, low / u / w, low / u % w, low % u, x, w, u);
  }

  lemma {:induction false} LowPartAt(q: nat, h: nat, m: nat, l: nat, x: nat, w: nat, u: nat)
    requires m < w && l < u
    ensures q * (x * w * u) + ((h * w + m) * u + l) >= 0
    ensures (q * (x * w * u) + ((h * w + m) * u + l)) / u % w == m
  {
    MulMonotone(0, q, x);
    Regroup(q, x, w, u, h, m);
    SplitField(q * x + h, m, l, w, u);
  }

  lemma Regroup(q: int, x: int, w: int, u: int, h: int, m: int)
    ensures ((q * x + h) * w + m) * u == q * (x * w * u) + (h * w + m) * u
  {
    MulDistribute(q * x, h, w);
    MulDistribute(q * x * w, h * w + m, u);
    MulAssoc(q, x, w);
    MulAssoc(q, x * w, u);
  }

  /** The law of `_set_bits`: the written field reads back, every disjoint field is untouched, and a
      byte stays a byte. */
  lemma {:induction false} SetBitsEffect(value: nat, offset: nat, width: nat, field: nat)
    ensures Field(SetBits(value, offset, width, field), offset, width) == field % Pow2(width)
    ensures forall o: nat, w: nat :: offset + width <= o || o + w <= offset
              ==> Field(SetBits(value, offset, width, field), o, w) == Field(value, o, w)
    ensures value < 256 && offset + width <= 8 ==> SetBits(value, offset, width, field) < 256
  {
    hide SetBits, Field;
    SetBitsReads(value, offset, width, field);
    forall o: nat, w: nat | offset + width <= o || o + w <= offset
      ensures Field(SetBits(value, offset, width, field), o, w) == Field(value, o, w)
    {
      if offset + width <= o {
        SetBitsKeepsAbove(value, offset, width, field, o - offset - width, w);
      } else {
        SetBitsKeepsBelow(value, offset, width, field, o, w);
      }
    }
    if value < 256 && offset + width <= 8 {
      SetBitsByte(value, offset, width, field);
    }
  }

  function Quotient(a: int, b: int): int
    requires b > 0
  {
    a / b
  }

  /** A field below what lies above it. */
  function Mixed(hi: nat, w: nat, field: nat): int
    requires w > 0
  {
    hi * w + field % w
  }

  lemma {:induction false} FieldBit(hi: nat, field: nat, w: nat, u: nat, x: nat)
    requires w > 0 && u > 0 && x > 0 && w == x * 2 * u
    ensures Mixed(hi, w, field) >= 0
    ensures Quotient(Mixed(hi, w, field), u) % 2 == Quotient(field, u) % 2
  {
    MulMonotone(0, hi, w);
    DivUnique(hi * w + field % w, w, hi, field % w);
    LowPart(hi * w + field % w, x, 2, u);
    LowPart(field, x, 2, u);
  }

  lemma {:induction false} AboveLow(middle: nat, low: nat, p: nat, u: nat)
    requires low < p && u > 0
    ensures p * u > 0 && middle * p + low >= 0 && (middle * p + low) / (p * u) == middle / u
  {
    MulMonotone(0, middle, p);
    DivUnique(middle * p + low, p, middle, low);
    DivDiv(middle * p + low, p, u);
  }

  lemma {:induction false} WrittenBit(value: nat, p: nat, w: nat, field: nat, u: nat, x: nat)
    requires p > 0 && w > 0 && u > 0 && x > 0 && w == x * 2 * u
    ensures p * u > 0 && Quotient(Replaced(value, p, w, field), p * u) % 2 == Quotient(field, u) % 2
  {
    hide Replaced, Mixed, Quotient;
    var hi := ReplacedMiddle(value, p, w, field, u);
    FieldBit(hi, field, w, u, x);
  }

  lemma {:induction false} ReplacedMiddle(value: nat, p: nat, w: nat, field: nat, u: nat) returns (hi: nat)
    requires p > 0 && w > 0 && u > 0
    ensures p * u > 0 && Quotient(Replaced(value, p, w, field), p * u) == Quotient(Mixed(hi, w, field), u)
  {
    hi := value / p / w;
    MulMonotone(0, hi, w);
    AboveLow(hi * w + field % w, value % p, p, u);
  }

  /** Bit by bit this is the masked assignment of the source: the bits of the field come from the field,
      all others from the value. */
  lemma {:induction false} SetBitsBit(value: nat, offset: nat, width: nat, field: nat, k: nat)
    ensures Field(SetBits(value, offset, width, field), k, 1) ==
            if offset <= k < offset + width then Field(field, k - offset, 1) else Field(value, k, 1)
  {
    assert Pow2(1) == 2;
    hide Pow2, Replaced;
    if offset <= k < offset + width {
      var j := k - offset;
      Pow2Add(offset, j);
      Pow2Add(width - j - 1, 1);
      Pow2Add(width - j - 1 + 1, j);
      WrittenBit(value, Pow2(offset), Pow2(width), field, Pow2(j), Pow2(width - j - 1));
    } else {
      hide SetBits, Field;
      SetBitsEffect(value, offset, width, field);
    }
  }

  lemma SetBitsByte(value: nat, offset: nat, width: nat, field: nat)
    requires value < 256 && offset + width <= 8
    ensures SetBits(value, offset, width, field) < 256
  {
    var above := 8 - offset - width;
    Pow2Add(offset, width);
    Pow2Add(offset + width, above);
    assert Pow2(8) == 256;
    KeepsHigh(value, Pow2(offset), Pow2(width), field, Pow2(above));
  }

  // ---- The fourteen-byte frame -----------------------------------------------------------------

  function ModeCode(m: Mode): nat {
    match m
    case Auto => 8
    case Cool => 3
    case Heat => 1
    case Dry => 2
    case FanOnly => 7
  }

  function FanCode(f: Fan): nat {
    match f
    case FanAuto => 0
    case FanMin => 1
    case FanLow => 2
    case FanMedium => 3
    case FanHigh => 5
  }

  function Clamp(x: int, low: int, high: int): int
    requires low <= high
  {
    if x < low then low else if x > high then high else x
  }

  /** A fan-only unit cannot run on automatic speed: it is sent as high. */
  function EffectiveFan(s: State): Fan {
    if s.mode == FanOnly && s.fan == FanAuto then FanHigh else s.fan
  }

  function PowerByte(s: State): nat {
    SetBit(SetBit(SetBit(SetBit(0x20, 2, s.powerOn), 3, s.timerMinutes > 0), 6, !s.light), 7, s.econo)
  }

  function ModeByte(s: State): nat {
    SetBit(SetBit(SetBits(0, 0, 4, ModeCode(s.mode)), 4, s.health), 6, s.turbo)
  }

  function TemperatureByte(s: State): nat {
    SetBits(0, 0, 4, 31 - Clamp(s.temperature, 16, 31))
  }

  function FanByte(s: State): nat {
    SetBits(SetBits(0, 0, 3, FanCode(EffectiveFan(s))), 3, 3, if s.swingVertical then 7 else 0)
  }

  function TimerByte(s: State): nat {
    (Clamp(s.timerMinutes, 0, 1440) / 10) % 256
  }

  function SwingByte(s: State): nat {
    SetBit(SetBit(0, 3, s.swingHorizontal), 7, s.mode == Heat && s.turbo && !s.auxHeat)
  }

  function Sum(bytes: seq<nat>): nat {
    if bytes == [] then 0 else Sum(bytes[..|bytes| - 1]) + bytes[|bytes| - 1]
  }

  function FrameBody(s: State): seq<nat> {
    [0x23, 0xCB, 0x26, 0x01, 0x00, PowerByte(s), ModeByte(s), TemperatureByte(s), FanByte(s), TimerByte(s),
     0, 0, SwingByte(s)]
  }

  function FrameOf(s: State): seq<nat> {
    FrameBody(s) + [Sum(FrameBody(s)) % 256]
  }

  method SetPowerAndMode(frame: array<nat>, state: State)
    requires frame.Length == 14 && frame[5] == 0x20 && frame[6] == 0
    modifies frame
    ensures frame[..] == old(frame[..])[5 := PowerByte(state)][6 := ModeByte(state)]
  {
    hide SetBits;
    frame[5] := SetBit(frame[5], 2, state.powerOn);
    frame[5] := SetBit(frame[5], 3, state.timerMinutes > 0);
    frame[5] := SetBit(frame[5], 6, !state.light);
    frame[5] := SetBit(frame[5], 7, state.econo);
    frame[6] := SetBits(frame[6], 0, 4, ModeCode(state.mode));
    frame[6] := SetBit(frame[6], 4, state.health);
    frame[6] := SetBit(frame[6], 6, state.turbo);
  }

  method SetComfort(frame: array<nat>, state: State)
    requires frame.Length == 14 && frame[7] == frame[8] == frame[9] == frame[12] == 0
    modifies frame
    ensures frame[..] == old(frame[..])[7 := TemperatureByte(state)][8 := FanByte(state)]
                                       [9 := TimerByte(state)][12 := SwingByte(state)]
  {
    hide SetBits;
    var temperature := Clamp(state.temperature, 16, 31);
    frame[7] := SetBits(frame[7], 0, 4, 31 - temperature);
    var fan := FanCode(state.fan);
    if state.mode == FanOnly && state.fan == FanAuto {
      fan := 5;
    }
    frame[8] := SetBits(frame[8], 0, 3, fan);
    frame[8] := SetBits(frame[8], 3, 3, if state.swingVertical then 7 else 0);
    frame[9] := (Clamp(state.timerMinutes, 0, 1440) / 10) % 256;
    frame[12] := SetBit(frame[12], 3, state.swingHorizontal);
    frame[12] := SetBit(frame[12], 7, state.mode == Heat && state.turbo && !state.auxHeat);
  }

  method EncodeFrame(state: State) returns (bytes: seq<nat>)
    ensures bytes == FrameOf(state)
  {
    hide SetBits, PowerByte, ModeByte, TemperatureByte, FanByte, TimerByte, SwingByte;
    var frame := new nat[14] [0x23, 0xCB, 0x26, 0x01, 0x00, 0x20, 0, 0, 0, 0, 0, 0, 0, 0];
    SetPowerAndMode(frame, state);
    SetComfort(frame, state);
    var sum := 0;
    for i := 0 to 13
      invariant frame[..13] == FrameBody(state)
      invariant sum == Sum(frame[..i])
    {
      assert frame[..i + 1][..i] == frame[..i];
      sum := sum + frame[i];
    }
    frame[13] := sum % 256;
    assert frame[..13] == FrameBody(state);
    bytes := frame[..];
    assert bytes == frame[..13] + [frame[13]];
  }

  // ---- What the air conditioner reads -----------------------------------------------------------

  /** The settings that reach the unit: clamped, with the fan and heating-boost rules applied. */
  datatype Settings = Settings(
    powerOn: bool, mode: Mode, temperature: int, fan: Fan, swingVertical: bool, swingHorizontal: bool,
    econo: bool, health: bool, turbo: bool, light: bool, timerOn: bool, timerTens: int, heatBoost: bool)

  function Canonical(s: State): Settings {
    Settings(
      s.powerOn, s.mode, Clamp(s.temperature, 16, 31), EffectiveFan(s), s.swingVertical, s.swingHorizontal,
      s.econo, s.health, s.turbo, s.light, s.timerMinutes > 0, Clamp(s.timerMinutes, 0, 1440) / 10,
      s.mode == Heat && s.turbo && !s.auxHeat)
  }

  function ModeFrom(code: nat): Mode {
    if code == 3 then Cool else if code == 1 then Heat else if code == 2 then Dry
    else if code == 7 then FanOnly else Auto
  }

  function FanFrom(code: nat): Fan {
    if code == 1 then FanMin else if code == 2 then FanLow else if code == 3 then FanMedium
    else if code == 5 then FanHigh else FanAuto
  }

  function DecodeFrame(f: seq<nat>): Settings
    requires |f| == 14
  {
    Settings(
      Field(f[5], 2, 1) == 1, ModeFrom(Field(f[6], 0, 4)), 31 - Field(f[7], 0, 4), FanFrom(Field(f[8], 0, 3)),
      Field(f[8], 3, 3) == 7, Field(f[12], 3, 1) == 1, Field(f[5], 7, 1) == 1, Field(f[6], 4, 1) == 1,
      Field(f[6], 6, 1) == 1, Field(f[5], 6, 1) == 0, Field(f[5], 3, 1) == 1, f[9], Field(f[12], 7, 1) == 1)
  }

  ghost predicate PowerFields(b: nat, s: State) {
    && b < 256 && Field(b, 2, 1) == (if s.powerOn then 1 else 0)
    && Field(b, 3, 1) == (if s.timerMinutes > 0 then 1 else 0)
    && Field(b, 6, 1) == (if s.light then 0 else 1) && Field(b, 7, 1) == (if s.econo then 1 else 0)
  }

  lemma {:induction false} PowerByteFields(s: State)
    ensures PowerFields(PowerByte(s), s)
  {
    hide SetBits, Field;
    assert Pow2(1) == 2;
    var b2 := SetBit(0x20, 2, s.powerOn);
    var b3 := SetBit(b2, 3, s.timerMinutes > 0);
    var b6 := SetBit(b3, 6, !s.light);
    SetBitsEffect(0x20, 2, 1, if s.powerOn then 1 else 0);
    SetBitsEffect(b2, 3, 1, if s.timerMinutes > 0 then 1 else 0);
    SetBitsEffect(b3, 6, 1, if !s.light then 1 else 0);
    SetBitsEffect(b6, 7, 1, if s.econo then 1 else 0);
  }

  ghost predicate ModeFields(b: nat, s: State) {
    && b < 256 && Field(b, 0, 4) == ModeCode(s.mode)
    && Field(b, 4, 1) == (if s.health then 1 else 0) && Field(b, 6, 1) == (if s.turbo then 1 else 0)
  }

  lemma {:induction false} ModeByteFields(s: State)
    ensures ModeFields(ModeByte(s), s)
  {
    hide SetBits, Field;
    assert Pow2(1) == 2 && Pow2(4) == 16;
    var b0 := SetBits(0, 0, 4, ModeCode(s.mode));
    var b4 := SetBit(b0, 4, s.health);
    SetBitsEffect(0, 0, 4, ModeCode(s.mode));
    SetBitsEffect(b0, 4, 1, if s.health then 1 else 0);
    SetBitsEffect(b4, 6, 1, if s.turbo then 1 else 0);
  }

  lemma {:induction false} TemperatureByteField(s: State)
    ensures TemperatureByte(s) < 256 && Field(TemperatureByte(s), 0, 4) == 31 - Clamp(s.temperature, 16, 31)
  {
    hide SetBits, Field;
    assert Pow2(4) == 16;
    SetBitsEffect(0, 0, 4, 31 - Clamp(s.temperature, 16, 31));
  }

  lemma {:induction false} FanByteFields(s: State)
    ensures FanByte(s) < 256 && Field(FanByte(s), 0, 3) == FanCode(EffectiveFan(s))
    ensures Field(FanByte(s), 3, 3) == if s.swingVertical then 7 else 0
  {
    hide SetBits, Field;
    assert Pow2(3) == 8;
    SetBitsEffect(0, 0, 3, FanCode(EffectiveFan(s)));
    SetBitsEffect(SetBits(0, 0, 3, FanCode(EffectiveFan(s))), 3, 3, if s.swingVertical then 7 else 0);
  }

  lemma {:induction false} SwingByteFields(s: State)
    ensures SwingByte(s) < 256 && Field(SwingByte(s), 3, 1) == if s.swingHorizontal then 1 else 0
    ensures Field(SwingByte(s), 7, 1) == if s.mode == Heat && s.turbo && !s.auxHeat then 1 else 0
  {
    hide SetBits, Field;
    assert Pow2(1) == 2;
    SetBitsEffect(0, 3, 1, if s.swingHorizontal then 1 else 0);
    SetBitsEffect(SetBit(0, 3, s.swingHorizontal), 7, 1, if s.mode == Heat && s.turbo && !s.auxHeat then 1 else 0);
  }

  /** A unit that reads the fields of the frame recovers every setting of every state, from a frame of
      fourteen bytes that starts with the fixed header and ends with the checksum. */
  lemma {:induction false} FrameRoundTrip(s: State)
    ensures DecodeFrame(FrameOf(s)) == Canonical(s)
    ensures |FrameOf(s)| == 14 && FrameOf(s)[..5] == [0x23, 0xCB, 0x26, 0x01, 0x00]
    ensures forall i :: 0 <= i < 14 ==> FrameOf(s)[i] < 256
    ensures FrameOf(s)[13] == Sum(FrameOf(s)[..13]) % 256
  {
    hide SetBits, Field, PowerByte, ModeByte, TemperatureByte, FanByte, SwingByte, Sum;
    PowerByteFields(s);
    ModeByteFields(s);
    TemperatureByteField(s);
    FanByteFields(s);
    SwingByteFields(s);
    assert FrameOf(s)[..13] == FrameBody(s);
    assert FrameOf(s)[..5] == [0x23, 0xCB, 0x26, 0x01, 0x00];
  }

  /** Two states are sent as the same frame exactly when they ask the unit for the same settings. */
  lemma {:induction false} SameFrameSameSettings(s: State, t: State)
    ensures FrameOf(s) == FrameOf(t) <==> Canonical(s) == Canonical(t)
  {
    hide SetBits, Field, Sum, DecodeFrame;
    FrameRoundTrip(s);
    FrameRoundTrip(t);
    if Canonical(s) == Canonical(t) {
      assert FrameBody(s) == FrameBody(t);
    }
  }

  /** Whether a setting adds its bit. */
  function Bit(on: bool, weight: nat): nat { if on then weight else 0 }

  function Degrees(t: int): int { if t < 16 then 16 else if t > 31 then 31 else t }

  function Minutes(t: int): int { if t < 0 then 0 else if t > 1440 then 1440 else t }

  /** Setting a bit that is clear adds its weight. */
  lemma {:induction false} ClearBitSet(v: nat, bit: nat, on: bool, p: nat)
    requires p == Pow2(bit) && v / p % 2 == 0
    ensures SetBit(v, bit, on) == v + Bit(on, p)
  {
    assert Pow2(1) == 2;
    hide Pow2;
    var q := v / p;
    DivMod(v, p);
    MulDistribute(q, if on then 1 else 0, p);
    assert q / 2 * 2 == q;
  }

  lemma {:induction false} PowerByteIs(s: State)
    ensures PowerByte(s) ==
              0x20 + Bit(s.powerOn, 4) + Bit(s.timerMinutes > 0, 8) + Bit(!s.light, 0x40) + Bit(s.econo, 0x80)
  {
    Powers();
    hide Pow2, SetBit;
    ClearBitSet(0x20, 2, s.powerOn, 4);
    ClearBitSet(0x20 + Bit(s.powerOn, 4), 3, s.timerMinutes > 0, 8);
    ClearBitSet(0x20 + Bit(s.powerOn, 4) + Bit(s.timerMinutes > 0, 8), 6, !s.light, 64);
    ClearBitSet(0x20 + Bit(s.powerOn, 4) + Bit(s.timerMinutes > 0, 8) + Bit(!s.light, 64), 7, s.econo, 128);
  }

  /** A field set in an empty byte. */
  lemma {:induction false} EmptySet(width: nat, field: nat)
    requires field < Pow2(width)
    ensures SetBits(0, 0, width, field) == field
  {
    assert Pow2(0) == 1;
    hide Pow2;
    DivMod(field, Pow2(width));
    DivUnique(0, Pow2(width), 0, 0);
    DivUnique(field, Pow2(width), 0, field);
  }

  lemma {:induction false} ModeByteIs(s: State)
    ensures ModeByte(s) ==
              (match s.mode case Auto => 8 case Cool => 3 case Heat => 1 case Dry => 2 case FanOnly => 7)
              + Bit(s.health, 0x10) + Bit(s.turbo, 0x40)
  {
    Powers();
    hide Pow2, SetBit, SetBits;
    EmptySet(4, ModeCode(s.mode));
    ClearBitSet(ModeCode(s.mode), 4, s.health, 16);
    ClearBitSet(ModeCode(s.mode) + Bit(s.health, 16), 6, s.turbo, 64);
  }

  lemma {:induction false} TemperatureByteIs(s: State)
    ensures TemperatureByte(s) == 31 - Degrees(s.temperature)
  {
    Powers();
    hide Pow2, SetBits;
    EmptySet(4, 31 - Clamp(s.temperature, 16, 31));
  }

  lemma {:induction false} FanByteIs(s: State)
    ensures FanByte(s) ==
              (match s.fan
               case FanAuto => if s.mode == FanOnly then 5 else 0
               case FanMin => 1 case FanLow => 2 case FanMedium => 3 case FanHigh => 5)
              + Bit(s.swingVertical, 0x38)
  {
    Powers();
    hide Pow2, SetBits;
    EmptySet(3, FanCode(EffectiveFan(s)));
    SwingSet(FanCode(EffectiveFan(s)), s.swingVertical);
  }

  lemma SwingSet(fan: nat, swing: bool)
    requires fan < 8
    ensures SetBits(fan, 3, 3, if swing then 7 else 0) == fan + Bit(swing, 0x38)
  {
    Powers();
    hide Pow2;
    assert fan / 8 == 0 && fan % 8 == fan;
  }

  lemma {:induction false} SwingByteIs(s: State)
    ensures SwingByte(s) == Bit(s.swingHorizontal, 8) + Bit(s.mode == Heat && s.turbo && !s.auxHeat, 0x80)
  {
    Powers();
    hide Pow2, SetBit;
    ClearBitSet(0, 3, s.swingHorizontal, 8);
    ClearBitSet(Bit(s.swingHorizontal, 8), 7, s.mode == Heat && s.turbo && !s.auxHeat, 128);
  }

  lemma Powers()
    ensures Pow2(0) == 1 && Pow2(1) == 2 && Pow2(2) == 4 && Pow2(3) == 8 && Pow2(4) == 16 && Pow2(6) == 64
    ensures Pow2(7) == 128
  {
    assert Pow2(4) == 16;
    assert Pow2(6) == 64;
  }

  /** The frame byte by byte, in plain numbers. */
  lemma {:induction false} FrameBytes(s: State)
    ensures FrameOf(s)[..13] ==
              [0x23, 0xCB, 0x26, 0x01, 0x00,
               0x20 + Bit(s.powerOn, 4) + Bit(s.timerMinutes > 0, 8) + Bit(!s.light, 0x40) + Bit(s.econo, 0x80),
               (match s.mode case Auto => 8 case Cool => 3 case Heat => 1 case Dry => 2 case FanOnly => 7)
               + Bit(s.health, 0x10) + Bit(s.turbo, 0x40),
               31 - Degrees(s.temperature),
               (match s.fan
                case FanAuto => if s.mode == FanOnly then 5 else 0
                case FanMin => 1 case FanLow => 2 case FanMedium => 3 case FanHigh => 5)
               + Bit(s.swingVertical, 0x38),
               Minutes(s.timerMinutes) / 10, 0, 0,
               Bit(s.swingHorizontal, 8) + Bit(s.mode == Heat && s.turbo && !s.auxHeat, 0x80)]
  {
    hide PowerByte, ModeByte, TemperatureByte, FanByte, SwingByte, Bit;
    PowerByteIs(s);
    ModeByteIs(s);
    TemperatureByteIs(s);
    FanByteIs(s);
    SwingByteIs(s);
    assert FrameOf(s)[..13] == FrameBody(s);
  }

  /** A frame that was captured from a remote control: cooling to 25 degrees, lowest fan speed, economy on and
      the light off. */
  lemma KnownCapture()
    ensures FrameOf(State(true, Cool, 25, FanMin, false, false, true, false, false, false, 0, false)) ==
              [0x23, 0xCB, 0x26, 0x01, 0x00, 0xE4, 0x03, 0x06, 0x01, 0, 0, 0, 0, 0x03]
  {
    var s := State(true, Cool, 25, FanMin, false, false, true, false, false, false, 0, false);
    hide PowerByte, ModeByte, TemperatureByte, FanByte, SwingByte, Sum;
    FrameBytes(s);
    SumTo(FrameBody(s), 0x203);
  }

  lemma SumNext(bytes: seq<nat>, k: nat)
    requires k < |bytes|
    ensures Sum(bytes[..k + 1]) == Sum(bytes[..k]) + bytes[k]
  {
    assert bytes[..k + 1][..k] == bytes[..k];
  }

  lemma SumTo(body: seq<nat>, total: nat)
    requires body == [0x23, 0xCB, 0x26, 0x01, 0x00, 0xE4, 0x03, 0x06, 0x01, 0, 0, 0, 0] && total == 0x203
    ensures Sum(body) == total
  {
    assert Sum(body[..0]) == 0;
    hide Sum;
    SumNext(body, 0);
    SumNext(body, 1);
    SumNext(body, 2);
    SumNext(body, 3);
    SumNext(body, 4);
    SumNext(body, 5);
    SumNext(body, 6);
    SumNext(body, 7);
    SumNext(body, 8);
    SumNext(body, 9);
    SumNext(body, 10);
    SumNext(body, 11);
    SumNext(body, 12);
    assert body[..13] == body;
  }

  // ---- The pulse-distance signal ------------------------------------------------------------------

  /** The lowest `n` bits of a byte, least significant first. */
  function BitsOf(b: nat, n: nat): seq<bool> {
    if n == 0 then [] else [b % 2 == 1] + BitsOf(b / 2, n - 1)
  }

  function FromBits(bits: seq<bool>): nat {
    if bits == [] then 0 else (if bits[0] then 1 else 0) + 2 * FromBits(bits[1..])
  }

  /** A mark and a space; the space is long for a 1. */
  function BitEdges(bit: bool): seq<Edge> {
    [Edge(1, 500), Edge(0, if bit then 1100 else 350)]
  }

  function BitsEdges(bits: seq<bool>): seq<Edge> {
    if bits == [] then [] else BitsEdges(bits[..|bits| - 1]) + BitEdges(bits[|bits| - 1])
  }

  function BytesEdges(bytes: seq<nat>): seq<Edge> {
    if bytes == [] then [] else BytesEdges(bytes[..|bytes| - 1]) + BitsEdges(BitsOf(bytes[|bytes| - 1], 8))
  }

  function SignalOf(bytes: seq<nat>): seq<Edge> {
    [Edge(1, 3100), Edge(0, 1600)] + BytesEdges(bytes) + [Edge(1, 500)]
  }

  lemma {:induction false} BitsOfAt(b: nat, n: nat, bit: nat)
    requires bit < n
    ensures |BitsOf(b, n)| == n && BitsOf(b, n)[bit] == ((b / Pow2(bit)) % 2 == 1)
  {
    if bit > 0 {
      BitsOfAt(b / 2, n - 1, bit - 1);
      DivDiv(b, 2, Pow2(bit - 1));
    } else if n > 1 {
      BitsOfAt(b / 2, n - 1, 0);
    }
  }

  lemma {:induction false} BitsEdgesAt(bits: seq<bool>, k: nat)
    requires k < |bits|
    ensures |BitsEdges(bits)| == 2 * |bits|
    ensures BitsEdges(bits)[2 * k] == Edge(1, 500)
    ensures BitsEdges(bits)[2 * k + 1] == Edge(0, if bits[k] then 1100 else 350)
  {
    var n := |bits| - 1;
    if n > 0 {
      BitsEdgesAt(bits[..n], if k < n then k else 0);
    }
  }

  lemma {:induction false} BytesEdgesAt(bytes: seq<nat>, i: nat, k: nat)
    requires i < |bytes| && k < 8
    ensures |BytesEdges(bytes)| == 16 * |bytes|
    ensures var at := 16 * i + 2 * k;
            BytesEdges(bytes)[at] == Edge(1, 500)
            && BytesEdges(bytes)[at + 1] == Edge(0, if bytes[i] / Pow2(k) % 2 == 1 then 1100 else 350)
  {
    hide BitsOf, Pow2, BitsEdges;
    var n := |bytes| - 1;
    if n > 0 {
      BytesEdgesAt(bytes[..n], if i < n then i else 0, k);
    }
    BitsOfAt(bytes[n], 8, k);
    BitsEdgesAt(BitsOf(bytes[n], 8), k);
  }

  /** The signal edge by edge: a leader, for each bit, lowest first, a mark of 500 us and a space of 1100 us for
      a 1 or 350 us for a 0, and a last mark. */
  lemma {:induction false} SignalAt(bytes: seq<nat>, i: nat, k: nat)
    requires i < |bytes| && k < 8
    ensures var signal, at := SignalOf(bytes), 2 + 16 * i + 2 * k;
      && |signal| == 16 * |bytes| + 3
      && signal[0] == Edge(1, 3100) && signal[1] == Edge(0, 1600) && signal[|signal| - 1] == Edge(1, 500)
      && signal[at] == Edge(1, 500)
      && signal[at + 1] == Edge(0, if bytes[i] / Pow2(k) % 2 == 1 then 1100 else 350)
  {
    hide BytesEdges, Pow2;
    BytesEdgesAt(bytes, i, k);
  }

  /** The inner loop: eight marks and spaces, low bit first. */
  method EncodeByte(b: nat) returns (edges: seq<Edge>)
    ensures edges == BitsEdges(BitsOf(b, 8))
  {
    hide BitsOf, Pow2;
    edges := [];
    ghost var bits := BitsOf(b, 8);
    BitsOfAt(b, 8, 0);
    for bit := 0 to 8
      invariant edges == BitsEdges(bits[..bit])
    {
      BitsOfAt(b, 8, bit);
      assert bits[..bit + 1][..bit] == bits[..bit];
      edges := edges + [Edge(1, 500)];
      edges := edges + [Edge(0, if (b / Pow2(bit)) % 2 == 1 then 1100 else 350)];
    }
    assert bits[..8] == bits;
  }

  method EncodeSignal(state: State) returns (signal: seq<Edge>, carrierHz: nat, dutyCycle: real)
    ensures signal == SignalOf(FrameOf(state)) && carrierHz == 38000 && dutyCycle == 0.33
  {
    hide FrameOf, BitsEdges;
    ghost var lead := [Edge(1, 3100), Edge(0, 1600)];
    signal := [Edge(1, 3100), Edge(0, 1600)];
    var bytes := EncodeFrame(state);
    for i := 0 to |bytes|
      invariant signal == lead + BytesEdges(bytes[..i])
    {
      assert bytes[..i + 1][..i] == bytes[..i];
      var edges := EncodeByte(bytes[i]);
      signal := signal + edges;
    }
    assert bytes[..|bytes|] == bytes;
    signal := signal + [Edge(1, 500)];
    return signal, 38000, 0.33;
  }

  /** A receiver that takes a space of more than 725 us for a 1, byte by byte, low bit first. */
  function Heard(signal: seq<Edge>): seq<bool>
    requires |signal| % 2 == 0
  {
    if signal == [] then [] else Heard(signal[..|signal| - 2]) + [signal[|signal| - 1].duration > 725]
  }

  function Bytes(bits: seq<bool>): seq<nat>
    requires |bits| % 8 == 0
  {
    if bits == [] then [] else Bytes(bits[..|bits| - 8]) + [FromBits(bits[|bits| - 8..])]
  }

  function DecodeSignal(signal: seq<Edge>): seq<nat>
    requires |signal| % 16 == 3
  {
    Bits16(signal);
    Bytes(Heard(signal[2..|signal| - 1]))
  }

  lemma Bits16(signal: seq<Edge>)
    requires |signal| % 16 == 3
    ensures |signal[2..|signal| - 1]| % 2 == 0 && |Heard(signal[2..|signal| - 1])| % 8 == 0
  {
    HeardLength(signal[2..|signal| - 1]);
  }

  lemma {:induction false} HeardLength(signal: seq<Edge>)
    requires |signal| % 2 == 0
    ensures |Heard(signal)| == |signal| / 2
  {
    if signal != [] {
      HeardLength(signal[..|signal| - 2]);
    }
  }

  /** What arrives when every duration may be off by less than 375 us. */
  ghost predicate Jittered(sent: seq<Edge>, received: seq<Edge>) {
    && |received| == |sent|
    && forall i :: 0 <= i < |sent| ==> -375 < received[i].duration - sent[i].duration < 375
  }

  lemma {:induction false} HeardBits(bits: seq<bool>, received: seq<Edge>)
    requires Jittered(BitsEdges(bits), received)
    ensures |received| == 2 * |bits| && Heard(received) == bits
  {
    if bits != [] {
      var n := |received| - 2;
      HeardBits(bits[..|bits| - 1], received[..n]);
      assert bits == bits[..|bits| - 1] + [bits[|bits| - 1]];
      assert BitsEdges(bits)[n + 1] == BitEdges(bits[|bits| - 1])[1];
    }
  }

  lemma {:induction false} HeardConcat(a: seq<Edge>, b: seq<Edge>)
    requires |a| % 2 == 0 && |b| % 2 == 0
    ensures Heard(a + b) == Heard(a) + Heard(b)
  {
    if b == [] {
      assert a + b == a;
    } else {
      assert (a + b)[..|a + b| - 2] == a + b[..|b| - 2];
      HeardConcat(a, b[..|b| - 2]);
    }
  }

  lemma {:induction false} BitsRoundTrip(b: nat, n: nat)
    requires b < Pow2(n)
    ensures |BitsOf(b, n)| == n && FromBits(BitsOf(b, n)) == b
  {
    if n > 0 {
      BitsRoundTrip(b / 2, n - 1);
      assert BitsOf(b, n)[1..] == BitsOf(b / 2, n - 1);
    }
  }

  lemma ByteHeard(b: nat, received: seq<Edge>)
    requires b < 256 && Jittered(BitsEdges(BitsOf(b, 8)), received)
    ensures |received| == 16 && |Heard(received)| == 8 && FromBits(Heard(received)) == b
  {
    hide BitsOf, BitsEdges, FromBits, Heard;
    assert Pow2(8) == 256;
    BitsRoundTrip(b, 8);
    HeardBits(BitsOf(b, 8), received);
  }

  lemma JitteredSplit(a: seq<Edge>, b: seq<Edge>, received: seq<Edge>)
    requires Jittered(a + b, received)
    ensures |received| == |a| + |b|
    ensures Jittered(a, received[..|a|]) && Jittered(b, received[|a|..])
  {
    forall i | 0 <= i < |b| ensures -375 < received[|a|..][i].duration - b[i].duration < 375 {
      assert (a + b)[|a| + i] == b[i];
    }
  }

  lemma BytesSnoc(bits: seq<bool>, tail: seq<bool>)
    requires |bits| % 8 == 0 && |tail| == 8
    ensures Bytes(bits + tail) == Bytes(bits) + [FromBits(tail)]
  {
    assert (bits + tail)[..|bits|] == bits && (bits + tail)[|bits|..] == tail;
  }

  ghost predicate HeardAs(received: seq<Edge>, bytes: seq<nat>) {
    && |received| == 16 * |bytes| && |Heard(received)| == 8 * |bytes| && |Heard(received)| % 8 == 0
    && Bytes(Heard(received)) == bytes
  }

  lemma HeardSnoc(init: seq<nat>, b: nat, a: seq<Edge>, r: seq<Edge>)
    requires HeardAs(a, init)
    requires |r| == 16 && |Heard(r)| == 8 && FromBits(Heard(r)) == b
    ensures HeardAs(a + r, init + [b])
  {
    hide FromBits, Heard, Bytes;
    HeardConcat(a, r);
    BytesSnoc(Heard(a), Heard(r));
  }

  lemma HeardByteMore(init: seq<nat>, last: nat, head: seq<Edge>, received: seq<Edge>)
    requires last < 256 && Jittered(head + BitsEdges(BitsOf(last, 8)), received)
    requires |head| <= |received| && HeardAs(received[..|head|], init)
    ensures HeardAs(received, init + [last])
  {
    hide FromBits, BitsOf, BitsEdges, Heard, Bytes, Jittered, HeardAs;
    var a, b := received[..|head|], received[|head|..];
    JitteredSplit(head, BitsEdges(BitsOf(last, 8)), received);
    ByteHeard(last, b);
    HeardSnoc(init, last, a, b);
    assert received == a + b;
  }

  lemma {:induction false} HeardBytes(bytes: seq<nat>, received: seq<Edge>)
    requires forall i :: 0 <= i < |bytes| ==> bytes[i] < 256
    requires Jittered(BytesEdges(bytes), received)
    ensures HeardAs(received, bytes)
  {
    assert bytes == [] ==> HeardAs(received, bytes);
    hide FromBits, BitsOf, BitsEdges, Heard, Bytes, Jittered, HeardAs;
    if bytes != [] {
      var init, last := bytes[..|bytes| - 1], bytes[|bytes| - 1];
      var head := BytesEdges(init);
      assert BytesEdges(bytes) == head + BitsEdges(BitsOf(last, 8)) && bytes == init + [last];
      hide BytesEdges;
      JitteredSplit(head, BitsEdges(BitsOf(last, 8)), received);
      HeardBytes(init, received[..|head|]);
      HeardByteMore(init, last, head, received);
    }
  }

  /** The infrared code carries byte strings of any length: whatever is received within the jitter
      decodes to the bytes that were sent. */
  lemma SignalRoundTrip(bytes: seq<nat>, received: seq<Edge>)
    requires forall i :: 0 <= i < |bytes| ==> bytes[i] < 256
    requires Jittered(SignalOf(bytes), received)
    ensures |SignalOf(bytes)| == 16 * |bytes| + 3
    ensures DecodeSignal(received) == bytes
  {
    var sent := SignalOf(bytes);
    assert sent[2..|sent| - 1] == BytesEdges(bytes);
    HeardBytes(bytes, received[2..|received| - 1]);
  }

  lemma {:induction false} BitsDuration(bits: seq<bool>)
    ensures |BitsEdges(bits)| == 2 * |bits| && 0 <= Duration(BitsEdges(bits)) <= 1600 * |bits|
    ensures forall i :: 0 <= i < |BitsEdges(bits)| ==> EdgeAccepted(BitsEdges(bits)[i])
  {
    if bits != [] {
      var last := |bits| - 1;
      BitsDuration(bits[..last]);
      DurationConcat(BitsEdges(bits[..last]), BitEdges(bits[last]));
      var mark, space := Edge(1, 500), Edge(0, if bits[last] then 1100 else 350);
      assert BitEdges(bits[last])[1..] == [space] && Duration([space]) == space.duration;
    }
  }

  lemma {:induction false} BytesDuration(bytes: seq<nat>)
    ensures |BytesEdges(bytes)| == 16 * |bytes| && 0 <= Duration(BytesEdges(bytes)) <= 12800 * |bytes|
    ensures forall i :: 0 <= i < |BytesEdges(bytes)| ==> EdgeAccepted(BytesEdges(bytes)[i])
  {
    if bytes != [] {
      var last := |bytes| - 1;
      var bits := BitsOf(bytes[last], 8);
      BytesDuration(bytes[..last]);
      BitsOfAt(bytes[last], 8, 0);
      BitsDuration(bits);
      DurationConcat(BytesEdges(bytes[..last]), BitsEdges(bits));
    }
  }

  /** Every frame of fourteen bytes, as every state has one, with every repeat count and gap that the
      integration offers makes a request that the platform admits: 227 edges, and within the thirty-second
      limit. */
  lemma EverySignalAdmitted(frame: seq<nat>, repeatCount: int, repeatGapUs: int)
    requires |frame| == 14 && forall i :: 0 <= i < 14 ==> frame[i] < 256
    requires 1 <= repeatCount <= 100 && 0 <= repeatGapUs <= 100000
    ensures |SignalOf(frame)| == 227
    ensures SchemaAccepts(SignalTxRequest(SignalOf(frame), 0, 38000, 0.33, repeatCount, repeatGapUs))
  {
    var body := BytesEdges(frame);
    BytesDuration(frame);
    var lead, trail := [Edge(1, 3100), Edge(0, 1600)], [Edge(1, 500)];
    DurationConcat(lead, body);
    DurationConcat(lead + body, trail);
    assert lead[1..] == [Edge(0, 1600)];
    var total := Duration(SignalOf(frame));
    assert total <= 184400;
    MulMonotone(total, 184400, repeatCount);
    MulMonotone(repeatGapUs, 100000, repeatCount - 1);
  }

  const SIGNAL_EDGES := 227

  /** The unit hears these edges as these settings. */
  ghost predicate UnitReads(heard: seq<Edge>, settings: Settings) {
    |heard| == SIGNAL_EDGES && |DecodeSignal(heard)| == 14 && DecodeFrame(DecodeSignal(heard)) == settings
  }

  /** In every one of `count` repetitions. */
  ghost predicate UnitReadsEach(heard: seq<Edge>, count: nat, settings: Settings) {
    && |heard| == SIGNAL_EDGES * count
    && forall k :: 0 <= k < count ==> UnitReads(heard[SIGNAL_EDGES * k..SIGNAL_EDGES * k + SIGNAL_EDGES], settings)
  }

  lemma {:induction false} RepeatedReads(edges: seq<Edge>, count: nat, settings: Settings)
    requires UnitReads(edges, settings)
    ensures UnitReadsEach(RmtPacking.RepeatEdges(edges, count), count, settings)
  {
    if count > 0 {
      RepeatedReads(edges, count - 1, settings);
      hide UnitReads;
      assert |edges| == SIGNAL_EDGES;
      var rest, all := RmtPacking.RepeatEdges(edges, count - 1), RmtPacking.RepeatEdges(edges, count);
      assert all == edges + rest;
      forall k | 0 <= k < count ensures UnitReads(all[SIGNAL_EDGES * k..SIGNAL_EDGES * k + SIGNAL_EDGES], settings) {
        if k == 0 {
          assert all[..SIGNAL_EDGES] == edges;
        } else {
          var at := SIGNAL_EDGES * (k - 1);
          assert all[SIGNAL_EDGES * k..SIGNAL_EDGES * k + SIGNAL_EDGES] == rest[at..at + SIGNAL_EDGES];
        }
      }
    }
  }

  /** The edges of a whole transmission as they are on the air: from chunks of RMT items, without the pads,
      repetition after repetition. */
  function OnTheAir(signal: seq<Edge>, repeatCount: nat, repeatGapUs: nat): seq<Edge> {
    RmtPacking.Seen(RmtPacking.JoinedBatches(
      RmtPacking.OnAir(RmtPacking.Transmission(signal, repeatCount, repeatGapUs))))
  }

  /** End to end: on a pin in signal mode the dispatcher accepts the command, the task's carrier check
      passes, and the air conditioner that hears the RMT items recovers the settings from every repetition. */
  lemma {:induction false} StateReachesUnit(s: State, gpio: nat, repeatCount: int, repeatGapUs: int, modes: seq<nat>)
    requires 1 <= repeatCount <= 100 && 0 <= repeatGapUs <= 100000
    requires |modes| == GPIO_COUNT && gpio < GPIO_COUNT && modes[gpio] == MODE_SIGNAL
    ensures var r := SignalTxRequest(SignalOf(FrameOf(s)), 0, 38000, 0.33, repeatCount, repeatGapUs);
      && SchemaAccepts(r) && Packable(gpio, r)
      && var p := Payload(CommandOf(gpio, r));
      && FirmwareAccepts(p, modes) && UnitReads(SignalIn(p), Canonical(s))
      && CarrierAccepted(r.carrierHz, Float32.Decode(CommandOf(gpio, r).duty))
      && UnitReadsEach(OnTheAir(SignalIn(p), repeatCount, repeatGapUs), repeatCount, Canonical(s))
  {
    hide FrameOf, SignalOf, FirmwareAccepts, Payload, SignalIn, HeaderOf, DecodeSignal, DecodeFrame, Canonical;
    hide Packable, Float32.Decode, Float32.Encode, Float32.Half, RmtPacking.Repeated, RmtPacking.Chunks;
    hide RmtPacking.Seen, RmtPacking.JoinedBatches, RmtPacking.OnAir, RmtPacking.RepeatEdges, UnitReadsEach;
    FrameRoundTrip(s);
    EverySignalAdmitted(FrameOf(s), repeatCount, repeatGapUs);
    var signal := SignalOf(FrameOf(s));
    var r := SignalTxRequest(signal, 0, 38000, 0.33, repeatCount, repeatGapUs);
    assert forall i :: 0 <= i < |signal| ==> EdgeAccepted(signal[i]) by { assert SchemaAccepts(r); }
    hide SchemaAccepts;
    Admitted(gpio, r, modes);
    SignalRoundTrip(FrameOf(s), signal);
    RmtPacking.TransmissionIsHeard(signal, RmtPacking.ChunkSize(|signal|), repeatCount, repeatGapUs);
    RepeatedReads(signal, repeatCount, Canonical(s));
  }

  lemma {:induction false} Admitted(gpio: nat, r: SignalTxRequest, modes: seq<nat>)
    requires SchemaAccepts(r) && r.delayUs == 0 && r.dutyCycle == 0.33
    requires |modes| == GPIO_COUNT && gpio < GPIO_COUNT && modes[gpio] == MODE_SIGNAL
    ensures Packable(gpio, r) && Fits(CommandOf(gpio, r))
    ensures DispatchedAs(Payload(CommandOf(gpio, r)), gpio, r, modes)
    ensures CarrierAccepted(r.carrierHz, Float32.Decode(CommandOf(gpio, r).duty))
  {
    hide Float32.Decode, Float32.Encode, DispatchedAs, Payload;
    AdmittedIsAccepted(gpio, r, modes);
    AdmittedIsTransmitted(gpio, r);
    assert Float32.Half(2) == 0.25;
    Float32.HalfOrder(2, 150);
  }
}
