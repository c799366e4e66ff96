/** The two ADC getters of the nRF52: channel 0 (the geophone velocity, in
    millivolts) and channel 1 (the battery, as a 0..100 level).  The raw
    reading that `adc_read` stores in `buf0`/`buf1`, and the status it
    returns, are inputs. */
module Adc {
  import opened MachineInts

  const ADC_REFERENCE_VOLTAGE: int := 3300
  const ADC_RESOLUTION: int := 4096
  const BATTERY_MAX_VOLTAGE: int := 4200
  const BATTERY_MIN_VOLTAGE: int := 2900

  /** C's `/` on `int`: the quotient truncated toward zero, the remainder
      taking the sign of the dividend. */
  function CDiv(a: int, b: int): (q: int)
    requires b > 0
    ensures a >= 0 ==> 0 <= a - q * b < b
    ensures a < 0 ==> -b < a - q * b <= 0
  {
    if a >= 0 then a / b else -((-a) / b)
  }

  /** `(raw * ADC_REFERENCE_VOLTAGE) / ADC_RESOLUTION`, in `int` arithmetic
      (the product of an `int16_t` and 3300 fits an `int`).  Every reading
      converts to a value that fits the `int16_t` the getters return. */
  function ToMillivolts(raw: Int16): (mv: int)
    ensures -26400 <= mv <= 26399
  {
    CDiv(raw * ADC_REFERENCE_VOLTAGE, ADC_RESOLUTION)
  }

  /** The status of `adc_read`, once stored in the getters' `int8_t ret`, is
      negative.  For a status that fits `int8_t` that is its own sign; a
      positive status of 128..255 wraps to a negative `int8_t` and is read
      as a failure too. */
  function ReadFailed(status: int): (failed: bool)
    ensures -0x80 <= status < 0x80 ==> (failed <==> status < 0)
    ensures 0x80 <= status < 0x100 ==> failed
  {
    ToInt8(status) < 0
  }

  /** `app_nrf52_get_ain0`: 0 when the read fails, otherwise the reading in
      millivolts, which the `int16_t` result type shows to fit. */
  function GetAin0(status: int, buf0: Int16): (velocity: Int16)
    ensures ReadFailed(status) ==> velocity == 0
    ensures !ReadFailed(status) ==> velocity == ToMillivolts(buf0)
  {
    if ReadFailed(status) then 0 else ToMillivolts(buf0)
  }

  /** The clamping step of `app_nrf52_get_ain1`: above the maximum becomes
      the maximum, below the minimum becomes one more than the minimum. */
  function ClampVoltage(mv: int): (v: int)
    ensures BATTERY_MIN_VOLTAGE <= v <= BATTERY_MAX_VOLTAGE
    ensures mv > BATTERY_MAX_VOLTAGE ==> v == BATTERY_MAX_VOLTAGE
    ensures mv < BATTERY_MIN_VOLTAGE ==> v == BATTERY_MIN_VOLTAGE + 1
    ensures BATTERY_MIN_VOLTAGE <= mv <= BATTERY_MAX_VOLTAGE ==> v == mv
  {
    var v := if mv > BATTERY_MAX_VOLTAGE then BATTERY_MAX_VOLTAGE else mv;
    if v < BATTERY_MIN_VOLTAGE then BATTERY_MIN_VOLTAGE + 1 else v
  }

  const RANGE: int := BATTERY_MAX_VOLTAGE - BATTERY_MIN_VOLTAGE

  /** `p <= 100 * (d / RANGE)^1.5` for non-negative `p` and `d`, squared and
      cleared of denominators. */
  predicate PercentFits(p: nat, d: nat)
  {
    p * p * (RANGE * RANGE * RANGE) <= 10000 * (d * d * d)
  }

  /** The largest `q <= p` with `PercentFits(q, d)`. */
  function LargestFitting(d: nat, p: nat): (r: nat)
    ensures r <= p && PercentFits(r, d)
    ensures forall q: nat :: r < q <= p ==> !PercentFits(q, d)
  {
    if p == 0 then
      assert 0 <= d * d * d by { CubeMonotone(0, d); }
      0
    else if PercentFits(p, d) then p
    else LargestFitting(d, p - 1)
  }

  /** `(int16_t)(pow((double)difference / range, 1.5) * 100)` in exact
      arithmetic: the value is at most 100 and non-negative, so the cast
      truncates it to the largest integer not above it. */
  function BatteryPercent(d: nat): (p: nat)
    requires d <= RANGE
    ensures p <= 100
  {
    LargestFitting(d, 100)
  }

  /** What `app_nrf52_get_ain1` returns for a successful read converting to
      `mv` millivolts: a level in 0..100, full from the maximum voltage up and
      empty from the minimum down. */
  function BatteryLevel(mv: int): (level: int)
    ensures 0 <= level <= 100
    ensures mv >= BATTERY_MAX_VOLTAGE ==> level == 100
    ensures mv <= BATTERY_MIN_VOLTAGE ==> level == 0
  {
    var voltage := ClampVoltage(mv);
    var difference := voltage - BATTERY_MIN_VOLTAGE;
    if RANGE > 0 && difference > 0 then
      BatteryPercentEnds(difference);
      BatteryPercent(difference)
    else 0
  }

  /** `app_nrf52_get_ain1`: convert, clamp step by step, then scale. */
  method GetAin1(status: int, buf1: Int16) returns (percent: Int16)
    ensures 0 <= percent <= 100
    ensures ReadFailed(status) ==> percent == 0
    ensures !ReadFailed(status) ==> percent == BatteryLevel(ToMillivolts(buf1))
  {
    if ReadFailed(status) {
      return 0;
    }
    var voltage := ToMillivolts(buf1);
    ghost var converted := voltage;
    if voltage > BATTERY_MAX_VOLTAGE {
      voltage := BATTERY_MAX_VOLTAGE;
    }
    if voltage < BATTERY_MIN_VOLTAGE {
      voltage := BATTERY_MIN_VOLTAGE + 1;
    }
    assert voltage == ClampVoltage(converted);
    var range := BATTERY_MAX_VOLTAGE - BATTERY_MIN_VOLTAGE;
    var difference := voltage - BATTERY_MIN_VOLTAGE;
    if range > 0 && difference > 0 {
      percent := BatteryPercent(difference);
    } else {
      percent := 0;
    }
  }

  // ----- properties ---------------------------------------------------------

  /** A larger reading never converts to fewer millivolts. */
  lemma MillivoltsMonotone(a: Int16, b: Int16)
    requires a <= b
    ensures ToMillivolts(a) <= ToMillivolts(b)
  {
  }

  /** A 12-bit reading converts to 0..3299 millivolts, rounded down. */
  lemma MillivoltsOfTwelveBitReading(raw: Int16)
    requires 0 <= raw < ADC_RESOLUTION
    ensures 0 <= ToMillivolts(raw) <= 3299
    ensures ToMillivolts(raw) == raw * ADC_REFERENCE_VOLTAGE / ADC_RESOLUTION
  {
  }

  /** The scaling branch is skipped (and 0 returned with an error message)
      exactly when the reading converts to 2900 mV: `range` is always 1300
      and `difference` is 0..1300, positive except at 2900. */
  lemma ScalingSkippedIff(mv: int)
    ensures RANGE == 1300
    ensures 0 <= ClampVoltage(mv) - BATTERY_MIN_VOLTAGE <= RANGE
    ensures !(RANGE > 0 && ClampVoltage(mv) - BATTERY_MIN_VOLTAGE > 0) <==> mv == BATTERY_MIN_VOLTAGE
  {
  }

  lemma CubeMonotone(a: nat, b: nat)
    requires a <= b
    ensures a * a * a <= b * b * b
  {
    assert a * a <= a * b <= b * b;
    assert a * a * a <= b * b * a <= b * b * b;
  }

  /** The scaled level never decreases as the voltage difference grows. */
  lemma BatteryPercentMonotone(d1: nat, d2: nat)
    requires d1 <= d2 <= RANGE
    ensures BatteryPercent(d1) <= BatteryPercent(d2)
  {
    var p := BatteryPercent(d1);
    CubeMonotone(d1, d2);
    assert PercentFits(p, d2);
  }

  /** The level is 100 exactly at the full range, and 0 for a difference of
      1 mV, which is what every reading below the minimum is clamped to. */
  lemma BatteryPercentEnds(d: nat)
    requires d <= RANGE
    ensures BatteryPercent(d) == 100 <==> d == RANGE
    ensures BatteryPercent(1) == 0
  {
    if d < RANGE {
      CubeMonotone(d, RANGE - 1);
      assert !PercentFits(100, d);
    }
    assert !PercentFits(1, 1);
  }

  /** The battery level returned never decreases as the converted voltage
      grows, and is 100 exactly from the maximum voltage up. */
  lemma BatteryLevelMonotone(mv1: int, mv2: int)
    requires mv1 <= mv2
    ensures 0 <= BatteryLevel(mv1) <= BatteryLevel(mv2) <= 100
    ensures BatteryLevel(mv2) == 100 <==> mv2 >= BATTERY_MAX_VOLTAGE
  {
    var d1 := ClampVoltage(mv1) - BATTERY_MIN_VOLTAGE;
    var d2 := ClampVoltage(mv2) - BATTERY_MIN_VOLTAGE;
    BatteryPercentEnds(d2);
    BatteryPercentEnds(d1);
    if d1 <= d2 {
      BatteryPercentMonotone(d1, d2);
    } else {
      // only a reading below the minimum (clamped to 2901) against one of
      // exactly 2900 mV: both levels are 0
      assert mv2 == BATTERY_MIN_VOLTAGE;
    }
  }

  /** Overall: a higher raw battery reading never gives a lower level. */
  lemma GetAin1Monotone(raw1: Int16, raw2: Int16)
    requires raw1 <= raw2
    ensures BatteryLevel(ToMillivolts(raw1)) <= BatteryLevel(ToMillivolts(raw2))
  {
    MillivoltsMonotone(raw1, raw2);
    BatteryLevelMonotone(ToMillivolts(raw1), ToMillivolts(raw2));
  }
}
