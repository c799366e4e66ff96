# nRF52840 seismic sensor node: verified model of its computational core

This project models, in Dafny, the parts of the `nrf52840_rtos_6sens` firmware
and its network-server decoder that compute something. Driver and radio wiring
is left out.

- **STA/LTA detector** (`sta_lta.dfy`, module `StaLta`). One cycle of the
  detector thread averages a 255-sample short window and a 1023-sample long
  window.
  - If the long-term average is 0, the thread function returns.
  - Otherwise it requests a LoRaWAN transmission whenever STA/LTA exceeds 1.0.
    The model computes both averages and their ratio exactly; the firmware
    computes them in `float`, which can leave out a transmission the model
    requests (see `StaLta.Decide` under "## Left out").
  - The two static buffers are a `Detector` class whose arrays are filled in
    place at the start of each cycle. The averaging loop is a method proved
    against a recursive `Sum`.
- **Telemetry frame** (`sensors.dfy`, module `Sensors`). `app_sensors_handler`
  writes two things into a zero-initialised buffer, using two loops:
  - an 8-byte big-endian timestamp;
  - four big-endian `int16` values: battery, temperature, humidity and
    velocity, which is always 0.

  It sends the first 16 bytes and maps the send status to its return code.
- **Uplink decoder** (`payload_decoder.dfy`, module `Decoder`). `decodeUplink`
  from `payload_decoder.js`, as written and corrected. It also has a decoder
  for the 16-byte frame the node actually sends.
- **RTC** (`rtc.dfy`, module `Rtc`). It covers:
  - the BCD conversions;
  - the seven-register mapping of `app_rtc_set_time` / `app_rtc_get_time`,
    where the caller's `struct tm` is a class updated in place;
  - the millisecond timestamp of `get_high_res_timestamp`.
- **ADC** (`adc.dfy`, module `Adc`). The millivolt conversion uses C's
  truncating division. The battery getter clamps the voltage and then scales
  it non-linearly.
- `machine_ints.dfy` (module `MachineInts`) holds the C integer widths and
  their conversions.

The foreign calls become inputs to the model. These are `adc_read`,
`i2c_burst_read`/`i2c_burst_write`, `rtc_get_time`, `k_uptime_get`, `mktime`,
`device_is_ready`, `lorawan_send`, `app_ds3231_get_time` and the sample store's
`adc_get_buffer`. The results of `app_nrf52_get_ain1`, `app_sht31_get_temp` and
`app_sht31_get_hum` are the `ain1`, `temp` and `hum` parameters of
`Sensors.SensorsHandler` (`src/app_sensors.c:44-46`).

Two facts about the detector's code shape the model:

- **One threshold.** The detector has one threshold, 1.0, and no hysteresis
  (`src/app_sta_lta.c:15,82-86`). It requests a transmission on every cycle
  above it, including consecutive ones (`EveryAboveThresholdCycleTriggers`).
- **Zero long-term average.** A zero long-term average ends the thread
  function; it does not skip the cycle (`src/app_sta_lta.c:69-76`), so
  detection stops for good (`Trace` ends there).

## Model

| member | source | states |
|---|---|---|
| `StaLta.Average` | src/app_sta_lta.c:30-46 | `calculate_sta` and `calculate_lta` are the same loop; for any non-empty prefix length it returns the exact mean `Sum(buffer[..size]) / size` |
| `StaLta.MeanBetweenMinAndMax` | src/app_sta_lta.c:25-26 | the mean of a non-empty window of `uint16` samples lies between its smallest and largest sample, hence is ≥ 0 |
| `StaLta.SumBounds` | src/app_sta_lta.c:32-34 | the accumulated sum of samples within [lo, hi] lies within [n·lo, n·hi] |
| `StaLta.SumZeroIffAllZero` | src/app_sta_lta.c:32-34 | a sum of unsigned samples is ≥ 0 and is 0 exactly when every sample is 0 |
| `StaLta.StopIffLongWindowSilent` | src/app_sta_lta.c:69-76 | a cycle ends the thread exactly when all 1023 long-window samples are 0 |
| `StaLta.Decide` | src/app_sta_lta.c:64-86 | one cycle's decision from its two windows alone: `Stop` exactly when the long window's sum is 0; `StopIffLongWindowSilent` and `TriggerIffCrossMultiplied` state when it stops and when it triggers |
| `StaLta.Trace` | src/app_sta_lta.c:50-88 | the outcomes of successive cycles: at most one per cycle and at least one when there is a cycle; `TraceIsPointwise` and `TraceEndsAtFirstStop` state that each is that cycle's decision and that nothing follows a `Stop` |
| `StaLta.TriggerIffCrossMultiplied` | src/app_sta_lta.c:78-86 | a cycle requests a transmission iff the long sum is non-zero and `sum(short)·1023 > sum(long)·255`, i.e. the exact STA/LTA exceeds `THRESHOLD` (1.0, defined at line 15) |
| `StaLta.Detector.Load` | src/app_sta_lta.c:58-59 | after the two window fetches the static buffers hold exactly the 255- and 1023-sample windows |
| `StaLta.Detector.Cycle` | src/app_sta_lta.c:64-86 | one loop pass: averages both buffers, `Stop` on a zero LTA, `Trigger` iff the ratio exceeds the threshold, else `Quiet` |
| `StaLta.Detector.Run` | src/app_sta_lta.c:50-88 | the thread over successive cycles produces exactly `Trace`: one outcome per cycle, ending at the first `Stop`; the buffers end holding the windows of the last cycle that ran |
| `StaLta.Detector.constructor` | src/app_sta_lta.c:25-26 | the static buffers have sizes 255 and 1023 and start zeroed |
| `StaLta.TraceIsPointwise` | src/app_sta_lta.c:82-86 | the detector is stateless: the k-th outcome of a run is the decision on the k-th windows alone |
| `StaLta.TraceEndsAtFirstStop` | src/app_sta_lta.c:69-76 | no cycle follows a `Stop`; a run stops early only by a `Stop`; without a silent long window every cycle runs |
| `StaLta.EveryAboveThresholdCycleTriggers` | src/app_sta_lta.c:82-86 | with no hysteresis, n consecutive above-threshold cycles request n transmissions |
| `StaLta.ShortWindowIsRecentPartOfLong` | src/app_sta_lta.c:58-59 | both requests end at the newest sample (offset = −size) and the short window is strictly shorter than the long one; `WellSized` takes the window sizes from these requests |
| `Sensors.SensorsHandler` | src/app_sensors.c:11-71 | the timestamp fills bytes 0..7; if the sensor is not ready it returns `-ENODEV` and sends nothing; otherwise bytes 0..15 are the frame, bytes 16.. stay 0, exactly 16 bytes go to port 2 unconfirmed, and the return code is that of `SendReturnCode` |
| `Sensors.SendReturnCode` | src/app_sensors.c:62-70 | for any send status that fits `int8_t`: 0 iff the send succeeded or failed with `-EAGAIN`; otherwise the error itself |
| `Sensors.TimestampField` | src/app_sensors.c:31-33 | the timestamp occupies 8 bytes; `TimestampRoundTrip` states that they read back big-endian as the timestamp |
| `Sensors.LowByte` | src/app_sensors.c:53 | `v & 0xFF` is the byte congruent to `v` modulo 2^8 |
| `Sensors.HighByte` | src/app_sensors.c:52 | `(v >> 8) & 0xFF` with the low byte makes the 16-bit word congruent to `v` modulo 2^16; `Int16BytesRoundTrip` recovers `v` from the two |
| `Sensors.ValueField` | src/app_sensors.c:50-54 | the value section has two bytes per value; `Decoder.ValueFieldDecodes` reads value j back from bytes 2j and 2j+1 |
| `Sensors.SensorValues` | src/app_sensors.c:44-50 | the `sensor_data` array: four values, the last (velocity) always 0; `FrameLayout` places battery, temperature and humidity in that order |
| `Sensors.Frame` | src/app_sensors.c:31-54 | timestamp then values, 8 + 2n bytes; `FrameLayout` places each byte and `Decoder.FrameRoundTrip` inverts it |
| `Sensors.TimestampRoundTrip` | src/app_sensors.c:31-33 | reassembling bytes `(ts >> (56-8i)) & 0xFF`, i = 0..7, big-endian yields `ts` for every `uint64_t` |
| `Sensors.BeRoundTrip` | src/app_sensors.c:31-33 | for any n, the n big-endian bytes of a number below 2^(8n) read back as that number |
| `Sensors.Int16BytesRoundTrip` | src/app_sensors.c:52-53 | the word rebuilt from the high byte `(v>>8)&0xFF` and the low byte `v&0xFF` is the `uint16_t` pattern of `v`, and with bit 15 read as the sign it is `v` again |
| `Sensors.FrameLayout` | src/app_sensors.c:43-54 | the frame is 16 bytes: timestamp, then battery, temperature, humidity high/low bytes at 8+2j, 9+2j, then velocity 0 |
| `Decoder.Word` | payload_decoder.js:13-16 | the word `hi` shifted left by 8 and or-ed with `lo` lies in 0..65535 and has `hi` as high byte and `lo` as low byte |
| `MachineInts.SignCorrect` | payload_decoder.js:19-22 | the corrected value is an `int16` congruent to the word modulo 2^16 and negative exactly when bit 15 is set |
| `MachineInts.SignCorrectInvertsWrap` | payload_decoder.js:19-22 | sign correction and the conversion to `uint16_t` undo each other, in both directions |
| `Decoder.Field` | payload_decoder.js:13-21 | one field: the `int16` whose 16-bit pattern is the big-endian word at bytes 2i and 2i+1; `ValueFieldDecodes` reads back each value the node wrote |
| `Decoder.Scaled` | payload_decoder.js:25-31 | the returned object: battery and velocity as decoded, temperature and humidity a hundredth of the decoded value; `FixedDecodesValueSection` states what the corrected script returns for the node's values |
| `Decoder.DecodeUplink` | payload_decoder.js:1-33 | as written: the warning-only object exactly for a length other than 8, and no input ever yields `data` |
| `Decoder.DecodeUplinkFixed` | payload_decoder.js:1-33 | with the sign test on `velocity`: `data` exactly for 8 bytes, never an exception, battery and velocity in the `int16` range and temperature and humidity in −327.68..327.67 |
| `Decoder.DecodeFrame` | payload_decoder.js:1-33 | a decoder for the node's 16-byte frame: it answers exactly the inputs of that length; `FrameRoundTrip` states that it inverts `Sensors.Frame` |
| `Decoder.DecodeUplinkOutcomes` | payload_decoder.js:6-22 | the script as written and the corrected one give the same warning for every wrong length; for every 8-byte input the script as written throws a ReferenceError on `velicity` where the corrected one returns `data` |
| `Decoder.FieldOfInt16` | payload_decoder.js:13-21 | the two bytes the node writes for any `int16` decode back to that `int16` |
| `Decoder.FixedDecodesValueSection` | payload_decoder.js:13-31 | with the velocity fix, the node's 8-byte value section decodes to battery and velocity unscaled and temperature and humidity divided by 100 |
| `Decoder.SentFrameIsRejected` | payload_decoder.js:6-10 | the 16-byte frame from `src/app_sensors.c:62` gets only the length warning, as written and with the velocity fix |
| `Decoder.FrameRoundTrip` | payload_decoder.js:1-33 | a decoder for the full frame recovers the timestamp and all four values the node serialised |
| `Rtc.BcdToDecimal` | src/app_rtc.c:12-14 | a valid BCD byte decodes to the number 0..99 whose tens and units are its high and low nibble |
| `Rtc.DecimalToBcd` | src/app_rtc.c:17-19 | for 0 ≤ v ≤ 99 the BCD byte has high nibble v/10 and low nibble v%10, is valid BCD and is ≤ 0x99 |
| `Rtc.EncodeRegisters` | src/app_rtc.c:24-32 | the seven registers sec, min, hour, wday, mday, mon+1, year−100; `RegistersRoundTrip` and `FieldsRoundTrip` state that `DecodeRegisters` inverts it |
| `Rtc.DecodeRegisters` | src/app_rtc.c:53-59 | a block of valid BCD registers decodes to fields in the two-digit register range (month −1..98, year 100..199) |
| `Rtc.DecimalRoundTrip` | src/app_rtc.c:12-19 | for 0 ≤ v ≤ 99, `bcd_to_decimal(decimal_to_bcd(v)) == v` |
| `Rtc.BcdRoundTrip` | src/app_rtc.c:12-19 | a byte with both nibbles ≤ 9 decodes to 0..99 and re-encodes to itself |
| `Rtc.RegistersRoundTrip` | src/app_rtc.c:24-32 | for fields in range (year 100..199, month −1..98, others 0..99) the seven registers are valid BCD and reading them back reproduces every field, month −1 and year +100 included |
| `Rtc.FieldsRoundTrip` | src/app_rtc.c:53-59 | reading any valid register block into fields and writing them back gives the same seven bytes |
| `Rtc.SetTime` | src/app_rtc.c:22-41 | writes the seven BCD registers sec, min, hour, wday, mday, mon+1, year−100 and returns 1 whatever the bus write returned |
| `Rtc.SetTimeChecked` | src/app_rtc.c:34-40 | corrected: on a failed bus write returns the error narrowed to `int8_t`, which for every error in −128..−1 is negative and the error itself; else 1 |
| `Rtc.GetTime` | src/app_rtc.c:44-68 | on a read error returns it unchanged and leaves the record untouched; otherwise stores the decoded seven fields in place and returns the `mktime` value as `int32_t` |
| `Rtc.TmRecord.constructor` | src/app_rtc.c:44 | the caller's record holds the given fields |
| `Rtc.HighResTimestamp` | src/app_rtc.c:79-91 | on RTC read failure the result is 0 |
| `Rtc.HighResTimestampValue` | src/app_rtc.c:81-87 | for in-range clock fields, the result is `(sec + 60·min + 3600·hour)·1000 + uptime mod 1000` with no wrap, so its millisecond part is the uptime's |
| `Adc.CDiv` | src/app_adc.c:82 | C `int` division: quotient truncated toward zero, remainder with the dividend's sign and smaller than the divisor |
| `Adc.GetAin0` | src/app_adc.c:67-86 | 0 when `adc_read` fails, else the reading in millivolts; the `int16_t` result type is proved to hold it |
| `Adc.ToMillivolts` | src/app_adc.c:82 | every `int16_t` reading converts to −26400..26399 mV, so it fits the `int16_t` result; `MillivoltsMonotone` and `MillivoltsOfTwelveBitReading` state its order and 12-bit range |
| `Adc.ReadFailed` | src/app_adc.c:73-74 | the `int8_t`-narrowed `adc_read` status is negative: for a status in −128..127 exactly when it is negative, and also for a positive status of 128..255, which wraps |
| `Adc.MillivoltsMonotone` | src/app_adc.c:82 | the conversion is monotone non-decreasing in the raw reading |
| `Adc.MillivoltsOfTwelveBitReading` | src/app_adc.c:82 | 12-bit readings 0..4095 convert to 0..3299 mV, rounded down |
| `Adc.ClampVoltage` | src/app_adc.c:107-109 | the clamped voltage lies in 2900..4200; above 4200 becomes 4200, below 2900 becomes 2901, in-range is kept |
| `Adc.ScalingSkippedIff` | src/app_adc.c:113-124 | `range` is 1300, `difference` lies in 0..1300, and the error branch returning 0 is taken exactly when the converted voltage is 2900 |
| `Adc.LargestFitting` | src/app_adc.c:118-120 | the result is the largest p ≤ the bound with p²·1300³ ≤ 10⁴·d³, i.e. p ≤ 100·(d/1300)^1.5 |
| `Adc.BatteryPercent` | src/app_adc.c:116-120 | the truncated percentage is at most 100 |
| `Adc.BatteryLevel` | src/app_adc.c:104-124 | the level of a successful read is in 0..100, 100 from 4200 mV up and 0 from 2900 mV down; `BatteryLevelMonotone` states that it never decreases |
| `Adc.GetAin1` | src/app_adc.c:89-128 | 0 when `adc_read` fails; otherwise the clamped, scaled level; always in 0..100 |
| `Adc.BatteryPercentMonotone` | src/app_adc.c:118-120 | the percentage never decreases as the voltage difference grows |
| `Adc.BatteryPercentEnds` | src/app_adc.c:116-120 | the percentage is 100 exactly at the full 1300 mV range and 0 for the 1 mV difference that readings below 2900 mV are clamped to |
| `Adc.BatteryLevelMonotone` | src/app_adc.c:104-124 | the level returned for a successful read never decreases with the converted voltage and is 100 exactly from 4200 mV up |
| `Adc.GetAin1Monotone` | src/app_adc.c:96-128 | a higher raw battery reading never yields a lower level |

## Left out

- Threads, semaphores and suspend/resume are not modelled: `k_sem_take`, the
  thread creation in `src/app_sta_lta.c` and all of `src/app_ttn_tx.c`. They
  are concurrency. One detector cycle is modelled on the two windows it
  receives.
- The circular sample store is not part of this model. `adc_get_buffer` and
  `data_ready_sem` are defined elsewhere, so each cycle's two windows are
  inputs.
- `StaLta.Decide` compares the two means and their ratio exactly, and so
  does `TriggerIffCrossMultiplied`. The firmware computes `sta`, `lta` and
  `sta/lta` in `float`, in which two means within one rounding step compare
  equal. It can then stay quiet on a cycle the model triggers on, even with
  sums below 2^24. Example: a short window of 254 × 1000 and 1 × 1001, and
  a long window of 1019 × 1000 and 4 × 1001. Exactly, STA/LTA is above 1; in
  `float` both means round to 1000.00390625 and the ratio is 1.0.
- `StaLta.Average` works in exact rationals. The firmware accumulates in
  `float`, which loses precision once a sum exceeds 2^24, and 1023 × 65535
  does.
- `StaLta.Average` requires a non-zero size. Both callers pass 255 or 1023, and
  the `float` NaN of a zero size is not modelled.
- The debug dump of the long buffer (`src/app_sta_lta.c:72-74`) is not
  modelled, and neither is any `printk` output.
- The `return 0;` inside the `void` thread function is modelled as the thread
  ending.
- `Decoder.Scaled` divides by 100 in exact reals. The script divides `double`s,
  whose rounding is not modelled.
- `Adc.BatteryPercent` is `pow(difference / range, 1.5) * 100` truncated, in
  exact arithmetic. The rounding of `double` division and of `pow` is not
  modelled. It could differ by one at values within rounding distance of an
  integer.
- `Rtc.GetTime` takes what `mktime` returns as an input, and its
  postcondition describes the record before `mktime` runs. The real `mktime`
  always overwrites `tm_wday` and normalises out-of-range fields in place, so
  after the call the record's weekday (and any out-of-range field) is not what
  `DecodeRegisters(regs)` gives.
- The `!rtc_dev` branch of `get_high_res_timestamp` is not modelled. Its bare
  `return;` in a `uint64_t` function yields no defined value.
- `Rtc.HighResTimestamp` does not model the C `int` overflow of
  `sec + min*60 + hour*3600` for huge field values. RTC fields are small.
- `BYTE_PAYLOAD` comes from `app_sensors.h`, whose value this model leaves
  open. `Sensors.SensorsHandler` takes it as `capacity` and requires the 16
  bytes it writes to fit.
- LED and GPIO calls, `app_nrf52_adc_init` and `app_rtc_init` are left out:
  they are driver setup with no computed result.
- `src/app_eeprom.c`, `src/app_geo_handler.c`, `src/app_sht31_bat_handler.c`
  and `src/main.c` are not part of this model. They are flash I/O, startup and
  radio wiring, and several contain undefined behaviour.
- The `int8_t` and `int32_t` narrowing of the statuses returned by `adc_read`,
  `lorawan_send` and `mktime` is modelled with two's-complement wrap-around,
  which is what the ARM compilers do.

## Findings

| source | as written | input that shows it | evidently intended | confidence | as-written member | corrected member |
|---|---|---|---|---|---|---|
| payload_decoder.js:22 | the sign test reads the undeclared name `velicity`, so every input that passes the length check throws a ReferenceError and no input ever yields `data` | any 8 bytes, e.g. eight zero bytes | test `velocity` and return the four decoded fields | high; not executed | `Decoder.DecodeUplinkOutcomes` (about `Decoder.DecodeUplink`) | `Decoder.FixedDecodesValueSection` (about `Decoder.DecodeUplinkFixed`) |
| payload_decoder.js:6 | the decoder accepts only 8-byte payloads, but `src/app_sensors.c:62` sends 16 bytes (timestamp and four values), so every telemetry frame gets only the warning | the frame for timestamp 0 and all values 0 (sixteen zero bytes) | decode the 16-byte frame: 8-byte big-endian timestamp, then the four words | medium; not executed | `Decoder.SentFrameIsRejected` | `Decoder.FrameRoundTrip` (about `Decoder.DecodeFrame`) |
| src/app_rtc.c:34-40 | after logging a failed bus write, `app_rtc_set_time` still returns 1, the same as on success | write status −5 (an I/O error): the function returns 1 | return the negative bus error on failure | medium; not executed | `Rtc.SetTime` | `Rtc.SetTimeChecked` |
