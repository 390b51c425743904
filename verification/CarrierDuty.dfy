/** The carrier's duty cycle in percent, as the transmit task computes it in 32-bit floats for the driver
    (src/gpio_signal_task.c). */
module CarrierDuty {
  import opened Board
  import opened Signals
  import opened Float32
  import opened SignalAdmission

  /** The float nearest to a number of at most 1. */
  function Value(d: real): real {
    Significand(d) as real * Half(Exponent(d, 0) + 23)
  }

  /** The float nearest to a number of at most 128: floats scale by powers of two. */
  function Nearest(x: real): real {
    if x <= 1.0 then Value(x) else 128.0 * Value(x / 128.0)
  }

  /** `(uint8_t)(duty * 100.0f + 0.5f)`: each operation rounds, and the conversion cuts off. */
  function Percent(duty: real): int {
    Nearest(Nearest(duty * 100.0) + 0.5).Floor % 256
  }

  /** The least duty cycle that is not 0 percent, just below 0.005. */
  const LEAST_DUTY: real := 21474835.0 / 4294967296.0

  // ---- Rounding within one binade ------------------------------------------------------------------------

  lemma Powers()
    ensures Half(1) == 0.5 && Half(2) == 0.25 && Half(7) == 1.0 / 128.0 && Half(8) == 1.0 / 256.0
    ensures Half(24) == 1.0 / 16777216.0 && Half(25) == 1.0 / 33554432.0 && Half(31) == 1.0 / 2147483648.0
    ensures Two(24) == 16777216.0 && Two(25) == 33554432.0 && Two(31) == 2147483648.0
  {
    assert Half(4) == 0.0625;
    assert Half(12) == 1.0 / 4096.0;
    assert Half(18) == 1.0 / 262144.0;
    assert Two(6) == 64.0;
    assert Two(12) == 4096.0;
    assert Two(18) == 262144.0;
  }

  lemma ExponentIs(d: real, e: nat)
    requires e < 126 && d >= Half(e) && (e > 0 ==> d < Half(e - 1))
    ensures Exponent(d, 0) == e
  {
    hide Half, Exponent;
    var r := Exponent(d, 0);
    ExponentBounds(d, 0);
    if r < e {
      HalfOrder(r, e - 1);
    } else if r > e {
      HalfOrder(e, r - 1);
    }
  }

  /** In the binade of 2^-e floats are the multiples of 2^-(e+23). */
  lemma ValueIn(d: real, e: nat)
    requires e < 126 && d >= Half(e) && (e > 0 ==> d < Half(e - 1))
    ensures Value(d) == RoundHalfEven(Scaled(d, e)) as real * Half(e + 23)
  {
    ExponentIs(d, e);
    hide Half, Two, Exponent, RoundHalfEven, Scaled;
  }

  /** The float nearest to a number in the binade of 2^-e or below. */
  lemma ValueBounds(d: real)
    requires 0.0 < d <= 1.0
    ensures var e := Exponent(d, 0);
      && (e < 126 ==> Half(e) <= Value(d)) && (e > 0 ==> 0.0 <= Value(d) <= Half(e - 1))
  {
    hide Half, Two, Exponent, Significand;
    var e, m, h := Exponent(d, 0), Significand(d) as real, Half(Exponent(d, 0) + 23);
    SignificandRange(d);
    TwoOrder();
    HalfUp(e, 23);
    TimesZero(h);
    AtLeast(m, h, 0.0, 0.0);
    assert Value(d) == m * h;
    hide Value;
    if e < 126 {
      AtLeast(m, h, Two(23), Half(e));
    }
    if e > 0 {
      assert e - 1 + 24 == e + 23;
      HalfUp(e - 1, 24);
      AtMost(m, h, Two(24), Half(e - 1));
    }
  }

  lemma AtLeast(m: real, h: real, a: real, g: real)
    requires a <= m && h > 0.0 && h * a == g
    ensures g <= m * h
  {
    MulOrder(a, m, h);
  }

  lemma AtMost(m: real, h: real, a: real, g: real)
    requires m <= a && h > 0.0 && h * a == g
    ensures m * h <= g
  {
    MulOrder(m, a, h);
  }

  /** Rounding does not take a number of at least 2^-e below it. */
  lemma {:induction false} ValueFrom(d: real, e: nat)
    requires e < 126 && Half(e) <= d <= 1.0
    ensures Value(d) >= Half(e)
  {
    hide Half, Exponent, Value;
    var r := Exponent(d, 0);
    HalfPositive(e);
    ExponentBounds(d, 0);
    ValueBounds(d);
    if r > e {
      HalfOrder(e, r - 1);
    } else {
      HalfOrder(r, e);
    }
  }

  lemma HalfPositive(n: nat)
    ensures Half(n) > 0.0
  {
  }

  /** Nor one below 2^-e above it. */
  lemma {:induction false} ValueUpTo(d: real, e: nat)
    requires 0 < e < 126 && 0.0 < d < Half(e)
    ensures 0.0 <= Value(d) <= Half(e)
  {
    hide Half, Exponent, Value;
    var r := Exponent(d, 0);
    HalfOrder(0, e);
    ExponentBounds(d, 0);
    ValueBounds(d);
    if r <= e {
      HalfOrder(r, e);
    } else {
      HalfOrder(e, r - 1);
    }
  }

  lemma ValueOfZero()
    ensures Value(0.0) == 0.0
  {
    hide Half, Two;
    HalfPositive(Exponent(0.0, 0));
    ExponentBounds(0.0, 0);
    TimesZero(Two(Exponent(0.0, 0) + 23));
    TimesZero(Half(Exponent(0.0, 0) + 23));
  }

  // ---- Where the percentage vanishes -----------------------------------------------------------------------

  lemma RoundUpTo(q: real, k: int)
    requires q <= k as real || (k % 2 == 0 && q <= k as real + 0.5) || q < k as real + 0.5
    ensures RoundHalfEven(q) <= k
  {
  }

  lemma RoundFrom(q: real, k: int)
    requires q >= k as real || (k % 2 == 0 && q >= k as real - 0.5) || q > k as real - 0.5
    ensures RoundHalfEven(q) >= k
  {
  }

  lemma {:induction false} ValueRange(d: real)
    requires 0.0 < d <= 1.0
    ensures 0.0 <= Value(d) <= 1.0
  {
    hide Half, Two, Exponent, Significand;
    SignificandRange(d);
    ValueAtMostOne(Exponent(d, 0), Significand(d));
  }

  /** No more than a hundred and a bit comes out of no more than that: multiples of 2^-17 are floats. */
  lemma NearestBelow(x: real, k: nat)
    requires 1.0 < x <= k as real / 131072.0 && 8388608 <= k <= 16777216
    ensures 0.0 <= Nearest(x) <= k as real / 131072.0
  {
    hide Value, Half, Two, RoundHalfEven;
    Powers();
    var d := x / 128.0;
    if d < 0.5 {
      ValueUpTo(d, 1);
    } else if d < 1.0 {
      UnitHalf();
      ValueIn(d, 1);
      RoundUpTo(Scaled(d, 1), k);
      RoundFrom(Scaled(d, 1), 0);
    } else {
      ValueRange(d);
    }
  }

  lemma UnitHalf()
    ensures Half(0) == 1.0
  {
  }

  /** A product of at most 0.5 - 1.5 * 2^-25 rounds to at most 0.5 - 2^-24. */
  lemma {:induction false} LowProduct(x: real)
    requires 0.0 <= x <= 0.5 - 3.0 / 67108864.0
    ensures 0.0 <= Nearest(x) <= 0.5 - 1.0 / 16777216.0
  {
    hide Value, Half, Two, RoundHalfEven;
    Powers();
    if x == 0.0 {
      ValueOfZero();
    } else if x < 0.25 {
      ValueUpTo(x, 2);
    } else {
      ValueIn(x, 2);
      RoundUpTo(Scaled(x, 2), 16777214);
      RoundFrom(Scaled(x, 2), 0);
    }
  }

  /** A larger one to at least 0.5 - 2^-25. */
  lemma HighProduct(x: real)
    requires 0.5 - 3.0 / 67108864.0 < x <= 100.0
    ensures 0.5 - 1.0 / 33554432.0 <= Nearest(x) <= 100.0
  {
    hide Value, Half, Two, RoundHalfEven;
    Powers();
    if x < 0.5 {
      ValueIn(x, 2);
      RoundFrom(Scaled(x, 2), 16777215);
      ValueRange(x);
    } else if x <= 1.0 {
      ValueFrom(x, 1);
      ValueRange(x);
    } else {
      ValueFrom(x / 128.0, 7);
      NearestBelow(x, 13107200);
    }
  }

  lemma LowSum(p: real)
    requires 0.0 <= p <= 0.5 - 1.0 / 16777216.0
    ensures Nearest(p + 0.5).Floor == 0
  {
    hide Value, Half, Two, RoundHalfEven;
    Powers();
    UnitHalf();
    ValueIn(p + 0.5, 1);
    RoundUpTo(Scaled(p + 0.5, 1), 16777215);
    RoundFrom(Scaled(p + 0.5, 1), 0);
  }

  lemma HighSum(p: real)
    requires 0.5 - 1.0 / 33554432.0 <= p <= 100.0
    ensures 1 <= Nearest(p + 0.5).Floor <= 100
  {
    hide Value, Half, Two, RoundHalfEven;
    Powers();
    UnitHalf();
    var s := p + 0.5;
    if s < 1.0 {
      ValueIn(s, 1);
      RoundFrom(Scaled(s, 1), 16777216);
      ValueRange(s);
    } else if s == 1.0 {
      ValueFrom(s, 0);
      ValueRange(s);
    } else {
      ValueFrom(s / 128.0, 7);
      NearestBelow(s, 13172736);
    }
  }

  /** The percentage is at most 100, and 0 exactly up to a bound on the product. */
  lemma {:induction false} PercentOf(duty: real)
    requires 0.0 <= duty <= 1.0
    ensures 0 <= Percent(duty) <= 100
    ensures Percent(duty) == 0 <==> duty * 100.0 <= 0.5 - 3.0 / 67108864.0
  {
    hide Nearest;
    if duty * 100.0 <= 0.5 - 3.0 / 67108864.0 {
      LowProduct(duty * 100.0);
      LowSum(Nearest(duty * 100.0));
    } else {
      HighProduct(duty * 100.0);
      HighSum(Nearest(duty * 100.0));
    }
  }

  /** The float of a duty cycle stays within that bound exactly below the least duty cycle. */
  lemma {:induction false} LeastDuty(d: real)
    requires 0.0 < d <= 1.0
    ensures Value(d) * 100.0 <= 0.5 - 3.0 / 67108864.0 <==> d < LEAST_DUTY
  {
    hide Value, Half, Two, RoundHalfEven;
    Powers();
    if d < Half(8) {
      ValueUpTo(d, 8);
    } else if d < Half(7) {
      ValueIn(d, 8);
      if d < LEAST_DUTY {
        RoundUpTo(Scaled(d, 8), 10737417);
      } else {
        RoundFrom(Scaled(d, 8), 10737418);
      }
    } else {
      ValueFrom(d, 7);
    }
  }

  lemma {:induction false} DecodedValue(d: real)
    requires 0.0 < d <= 1.0
    ensures 0 <= Encode(d) < 0x8000_0000 && Decode(Encode(d)) == Finite(Value(d))
  {
    hide Half, Two, Exponent, Decode, Significand;
    SignificandRange(d);
    DecodeSignificand(Exponent(d, 0), Significand(d));
  }

  /** Of an admitted request the driver is given a duty cycle between 0 and 100 percent, and 0 percent exactly
      when the one asked for is below the least: far more vanish here than in the check of the carrier. */
  lemma {:induction false} DutyPercent(gpio: nat, r: SignalTxRequest)
    requires SchemaAccepts(r) && Packable(gpio, r)
    ensures var duty := Decode(CommandOf(gpio, r).duty);
      && duty.Finite? && 0 <= Percent(duty.value) <= 100
      && (Percent(duty.value) == 0 <==> r.dutyCycle < LEAST_DUTY)
  {
    hide Encode, Decode, Value, Percent;
    DecodedValue(r.dutyCycle);
    ValueRange(r.dutyCycle);
    PercentOf(Value(r.dutyCycle));
    LeastDuty(r.dutyCycle);
  }

  /** A duty cycle of a fifth of a percent passes every check and is played with none. */
  lemma {:induction false} FaintDutyVanishes(modes: seq<nat>)
    requires |modes| == GPIO_COUNT && modes[4] == MODE_SIGNAL
    ensures var r := SignalTxRequest([Edge(1, 500)], 0, 38000, 0.002, 1, 0);
      && SchemaAccepts(r) && Packable(4, r) && FirmwareAccepts(Payload(CommandOf(4, r)), modes)
      && CarrierAccepted(r.carrierHz, Decode(CommandOf(4, r).duty))
      && Decode(CommandOf(4, r).duty).Finite? && Percent(Decode(CommandOf(4, r).duty).value) == 0
  {
    hide Encode, Decode, Percent, Half, Payload, HeaderOf, FirmwareAccepts;
    var r := SignalTxRequest([Edge(1, 500)], 0, 38000, 0.002, 1, 0);
    assert r.signal[1..] == [];
    AdmittedIsAccepted(4, r, modes);
    AdmittedIsTransmitted(4, r);
    Powers();
    HalfOrder(24, 150);
    DutyPercent(4, r);
  }
}
