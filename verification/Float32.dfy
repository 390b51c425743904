/** Rounding of a duty cycle to the 32-bit float that `struct.pack('f', ...)` puts on the wire. */
module Float32 {

  /** 2^-n. */
  function Half(n: nat): (h: real)
    ensures h > 0.0
  {
    if n == 0 then 1.0 else Half(n - 1) / 2.0
  }

  /** 2^n. */
  function Two(n: nat): (t: real)
    ensures t > 0.0
  {
    if n == 0 then 1.0 else Two(n - 1) * 2.0
  }

  datatype Float = Finite(value: real) | Infinite(negative: bool) | NaN

  const MANTISSA := 0x80_0000

  /** The number a 32-bit pattern stands for (sections 3.3 and 3.4 of IEEE 754-2008). */
  function Decode(bits: nat): Float
    requires bits < 0x1_0000_0000
  {
    var negative := bits / 0x8000_0000 == 1;
    var exponent := bits / MANTISSA % 256;
    var mantissa := bits % MANTISSA;
    if exponent == 255 then
      if mantissa == 0 then Infinite(negative) else NaN
    else
      var magnitude :=
        if exponent == 0 then mantissa as real * Half(149)
        else if exponent <= 150 then (MANTISSA + mantissa) as real * Half(150 - exponent)
        else (MANTISSA + mantissa) as real * Two(exponent - 150);
      Finite(if negative then -magnitude else magnitude)
  }

  /** Round to the nearest integer, ties to even. */
  function RoundHalfEven(q: real): int {
    var f := q.Floor;
    if q - f as real < 0.5 then f
    else if q - f as real > 0.5 then f + 1
    else if f % 2 == 0 then f else f + 1
  }

  /** The binary exponent of `d`, as 2^-e with e at most 126 (below that floats are subnormal). */
  function Exponent(d: real, e: nat): (r: nat)
    requires e <= 126
    ensures e <= r <= 126
    decreases 126 - e
  {
    if e == 126 || d >= Half(e) then e else Exponent(d, e + 1)
  }

  function Scaled(d: real, e: nat): real {
    d * Two(e + 23)
  }

  function Significand(d: real): int {
    RoundHalfEven(Scaled(d, Exponent(d, 0)))
  }

  /** The pattern of the float nearest to a number in (0, 1]. */
  function Encode(d: real): int {
    (126 - Exponent(d, 0)) * MANTISSA + Significand(d)
  }

  lemma MulOrder(a: real, b: real, c: real)
    requires c > 0.0
    ensures a < b ==> a * c < b * c
    ensures a <= b ==> a * c <= b * c
  {
  }

  lemma Quarter(h: real, t: real)
    ensures (h / 2.0) * (t * 2.0) == h * t
  {
  }

  /** 2^-a * 2^(a+b) = 2^b. */
  lemma {:induction false} HalfTwo(a: nat, b: nat)
    ensures Half(a) * Two(a + b) == Two(b)
  {
    if a > 0 {
      HalfTwo(a - 1, b);
      Quarter(Half(a - 1), Two(a - 1 + b));
    }
  }

  /** 2^-(a+b) * 2^b = 2^-a. */
  lemma {:induction false} HalfUp(a: nat, b: nat)
    ensures Half(a + b) * Two(b) == Half(a)
  {
    if b > 0 {
      HalfUp(a, b - 1);
      Quarter(Half(a + b - 1), Two(b - 1));
    }
  }

  lemma {:induction false} HalfOrder(a: nat, b: nat)
    ensures a < b ==> Half(a) > Half(b)
    ensures Half(b) <= 1.0
    decreases b
  {
    if b > 0 {
      HalfOrder(a, b - 1);
    }
  }

  lemma {:induction false} ExponentBounds(d: real, e: nat)
    requires e <= 126
    ensures var r := Exponent(d, e); (r < 126 ==> d >= Half(r)) && (r > e ==> d < Half(r - 1))
    decreases 126 - e
  {
    if e < 126 && d < Half(e) {
      ExponentBounds(d, e + 1);
    }
  }

  lemma RoundRange(q: real, k: int)
    ensures q >= k as real ==> RoundHalfEven(q) >= k
    ensures q <= k as real ==> RoundHalfEven(q) <= k
  {
  }

  /** Scaling by 2^(e+23) takes 2^-e to 2^23, and twice that to 2^24. */
  lemma ScaledFrom(d: real, e: nat)
    requires d >= Half(e)
    ensures Scaled(d, e) >= Two(23)
  {
    hide Half, Two;
    HalfTwo(e, 23);
    MulOrder(Half(e), d, Two(e + 23));
  }

  lemma ScaledUpTo(d: real, e: nat, k: nat)
    requires d <= Half(e)
    ensures Scaled(d, e + k) <= Two(23 + k)
  {
    hide Half, Two;
    assert e + (23 + k) == e + k + 23;
    HalfTwo(e, 23 + k);
    MulOrder(d, Half(e), Two(e + k + 23));
  }

  lemma ScaledPositive(d: real, e: nat)
    requires d > 0.0
    ensures Scaled(d, e) > 0.0
  {
    hide Half, Two;
    MulOrder(0.0, d, Two(e + 23));
  }

  /** The scaled value before rounding keeps 24 bits, or fewer for a subnormal number. */
  lemma {:induction false} ScaledRange(d: real)
    requires 0.0 < d <= 1.0
    ensures var e := Exponent(d, 0);
            var q := Scaled(d, e);
      && 0.0 < q <= Two(24) && (e == 0 ==> q <= Two(23)) && (e < 126 ==> q >= Two(23))
  {
    assert Half(0) == 1.0;
    hide Half, Two, Exponent, Scaled;
    var e := Exponent(d, 0);
    ExponentBounds(d, 0);
    ScaledPositive(d, e);
    if e == 0 {
      ScaledUpTo(d, 0, 0);
      TwoOrder();
    } else {
      ScaledUpTo(d, e - 1, 1);
    }
    if e < 126 {
      ScaledFrom(d, e);
    }
  }

  lemma TwoOrder()
    ensures Two(23) == MANTISSA as real && Two(24) == (2 * MANTISSA) as real
  {
    assert Two(6) == 64.0;
    assert Two(12) == 4096.0;
    assert Two(18) == 262144.0;
  }

  lemma {:induction false} SignificandRange(d: real)
    requires 0.0 < d <= 1.0
    ensures var e, m := Exponent(d, 0), Significand(d);
      && 0 <= m <= 2 * MANTISSA && (e == 0 ==> m <= MANTISSA) && (e < 126 ==> m >= MANTISSA)
  {
    hide Half, Two, Exponent, RoundHalfEven;
    var q := Scaled(d, Exponent(d, 0));
    ScaledRange(d);
    TwoOrder();
    RoundRange(q, 0);
    RoundRange(q, MANTISSA);
    RoundRange(q, 2 * MANTISSA);
  }

  /** A normal number: biased exponent `k`, fraction `f`. */
  lemma DecodeNormal(k: nat, f: nat)
    requires 1 <= k <= 150 && f < MANTISSA
    ensures 0 <= k * MANTISSA + f < 0x8000_0000
    ensures Decode(k * MANTISSA + f) == Finite((MANTISSA + f) as real * Half(150 - k))
  {
    hide Half, Two;
    var bits := k * MANTISSA + f;
    assert bits / 0x8000_0000 == 0 && bits / MANTISSA == k && bits % MANTISSA == f;
  }

  lemma DecodeSubnormal(f: nat)
    requires f < MANTISSA
    ensures Decode(f) == Finite(f as real * Half(149))
  {
    hide Half, Two;
    assert f / 0x8000_0000 == 0 && f / MANTISSA == 0 && f % MANTISSA == f;
  }

  lemma DecodeSignificand(e: nat, m: nat)
    requires e <= 126 && m <= 2 * MANTISSA && (e == 0 ==> m <= MANTISSA) && (e < 126 ==> m >= MANTISSA)
    ensures 0 <= (126 - e) * MANTISSA + m < 0x8000_0000
    ensures Decode((126 - e) * MANTISSA + m) == Finite(m as real * Half(e + 23))
  {
    hide Decode, Half, Two;
    if m < MANTISSA {
      DecodeSubnormal(m);
    } else if m < 2 * MANTISSA {
      DecodeNormal(127 - e, m - MANTISSA);
    } else {
      DecodeNormal(128 - e, 0);
      HalfStep(e + 22);
    }
  }

  lemma HalfStep(k: nat)
    ensures Half(k) == 2.0 * Half(k + 1)
  {
  }

  lemma RoundsUp(q: real)
    requires q > 0.0
    ensures RoundHalfEven(q) > 0 <==> q > 0.5
  {
  }

  lemma Threshold(d: real, h: real, t: real, q: real)
    requires d > 0.0 && h > 0.0 && t > 0.0 && h * t == 0.5 && q == d * t
    ensures RoundHalfEven(q) > 0 <==> d > h
  {
    hide RoundHalfEven;
    MulOrder(h, d, t);
    MulOrder(d, h, t);
    MulOrder(0.0, d, t);
    RoundsUp(q);
  }

  lemma PositiveIff(d: real)
    requires 0.0 < d <= 1.0
    ensures Significand(d) > 0 <==> d > Half(150)
  {
    hide Half, Two, Exponent, RoundHalfEven;
    var e := Exponent(d, 0);
    SignificandRange(d);
    ExponentBounds(d, 0);
    HalfOrder(e, 150);
    if e == 126 {
      HalfTwice(e + 23);
      Threshold(d, Half(e + 24), Two(e + 23), Scaled(d, e));
      assert e + 24 == 150;
    }
  }

  lemma HalfTwice(n: nat)
    ensures Half(n + 1) * Two(n) == 0.5
  {
    HalfTwo(n, 0);
    assert Half(n + 1) == Half(n) / 2.0;
  }

  lemma ProductInUnit(m: real, t: real, h: real)
    requires 0.0 <= m <= t && h > 0.0 && t * h <= 1.0
    ensures 0.0 <= m * h <= 1.0 && (m * h > 0.0 <==> m > 0.0)
  {
    TimesZero(h);
    MulOrder(0.0, m, h);
    MulOrder(m, t, h);
  }

  lemma TimesZero(h: real)
    ensures 0.0 * h == 0.0
  {
  }

  lemma ValueAtMostOne(e: nat, m: nat)
    requires m <= 2 * MANTISSA && (e == 0 ==> m <= MANTISSA)
    ensures 0.0 <= m as real * Half(e + 23) <= 1.0
    ensures m as real * Half(e + 23) > 0.0 <==> m > 0
  {
    hide Half, Two;
    TwoOrder();
    if e == 0 {
      UnitProduct(0, 23);
      ProductInUnit(m as real, Two(23), Half(e + 23));
    } else {
      assert e - 1 + 24 == e + 23;
      UnitProduct(e - 1, 24);
      ProductInUnit(m as real, Two(24), Half(e + 23));
    }
  }

  lemma UnitProduct(a: nat, b: nat)
    ensures Two(b) * Half(a + b) <= 1.0
  {
    HalfUp(a, b);
    HalfOrder(0, a);
  }

  /** A number in (0, 1] arrives as a finite float in [0, 1], and as zero exactly when it is no more
      than half of the smallest subnormal, 2^-150. */
  lemma {:induction false} EncodeDecodes(d: real)
    requires 0.0 < d <= 1.0
    ensures 0 <= Encode(d) < 0x8000_0000
    ensures Decode(Encode(d)).Finite? && 0.0 <= Decode(Encode(d)).value <= 1.0
    ensures Decode(Encode(d)).value > 0.0 <==> d > Half(150)
  {
    hide Half, Two, Exponent, Decode, Significand;
    SignificandRange(d);
    var e, m := Exponent(d, 0), Significand(d);
    DecodeSignificand(e, m);
    ValueAtMostOne(e, m);
    PositiveIff(d);
  }
}
