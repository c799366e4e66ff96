/** The periodic telemetry frame: an 8-byte big-endian timestamp followed by
    four big-endian `int16` values (battery, temperature, humidity, velocity),
    written into a zero-initialised byte buffer and handed to the LoRaWAN
    stack.  The clock, the sensors and the radio are inputs. */
module Sensors {
  import opened MachineInts

  const TIMESTAMP_BYTES: nat := 8
  const VALUE_COUNT: nat := 4
  /** Bytes actually passed to `lorawan_send`: the final value of `index`. */
  const FRAME_LENGTH: nat := 16
  const LORAWAN_PORT: nat := 2
  /** Zephyr's errno values for the two codes the handler names. */
  const EAGAIN: int := 11
  const ENODEV: int := 19

  /** What the handler passes to `lorawan_send`. */
  datatype SendRequest = SendRequest(port: nat, payload: seq<Uint8>, confirmed: bool)

  function Pow2(n: nat): (r: nat)
    ensures r > 0
  {
    if n == 0 then 1 else 2 * Pow2(n - 1)
  }

  /** `n` bytes of `x`, most significant first: byte `i` is
      `(x >> (8 * (n - 1 - i))) & 0xFF`, a right shift being a division by a
      power of two on unsigned values. */
  function ByteField(x: nat, n: nat): (r: seq<Uint8>)
    ensures |r| == n
  {
    seq(n, i requires 0 <= i < n => (x / Pow2(8 * (n - 1 - i))) % 256)
  }

  /** Bytes 0..7 of the frame; byte `i` is `(ts >> (56 - 8 * i)) & 0xFF`. */
  function TimestampField(ts: Uint64): (r: seq<Uint8>)
    ensures |r| == TIMESTAMP_BYTES
  {
    ByteField(ts, TIMESTAMP_BYTES)
  }

  /** `v & 0xFF`: the byte congruent to `v` modulo 2^8. */
  function LowByte(v: Int16): (lo: Uint8)
    ensures (v - lo) % 0x100 == 0
  {
    v % 256
  }

  /** `(v >> 8) & 0xFF` for an `int16_t` promoted to `int`: the shift is
      arithmetic, i.e. a floor division, which Dafny's `/` is for a positive
      divisor.  With the low byte it makes the 16-bit word congruent to `v`
      modulo 2^16. */
  function HighByte(v: Int16): (hi: Uint8)
    ensures (hi * 256 + LowByte(v) - v) % 0x1_0000 == 0
  {
    (v / 256) % 256
  }

  /** The value section: value `j` occupies bytes `2j` (high) and `2j+1` (low). */
  function ValueField(vs: seq<Int16>): (r: seq<Uint8>)
    ensures |r| == 2 * |vs|
  {
    seq(2 * |vs|, k requires 0 <= k < 2 * |vs| =>
      if k % 2 == 0 then HighByte(vs[k / 2]) else LowByte(vs[k / 2]))
  }

  /** The values in the order the handler lists them; velocity is always 0. */
  function SensorValues(ain1: Int16, temp: Int16, hum: Int16): (vs: seq<Int16>)
    ensures |vs| == VALUE_COUNT && vs[VALUE_COUNT - 1] == 0
  {
    [ain1, temp, hum, 0]
  }

  function Frame(ts: Uint64, vs: seq<Int16>): (r: seq<Uint8>)
    ensures |r| == TIMESTAMP_BYTES + 2 * |vs|
  {
    TimestampField(ts) + ValueField(vs)
  }

  /** Big-endian reading of a byte string. */
  function BeValue(s: seq<Uint8>): nat
  {
    if s == [] then 0 else BeValue(s[..|s| - 1]) * 256 + s[|s| - 1]
  }

  /** The handler's return code for the status of `lorawan_send`, once stored
      in its `int8_t ret`: success and `-EAGAIN` give 0, any other error is
      passed on. */
  function SendReturnCode(status: int): (ret: Int8)
    ensures -0x80 <= status < 0x80 ==>
              (ret == 0 <==> status >= 0 || status == -EAGAIN)
    ensures -0x80 <= status < 0x80 && ret != 0 ==> ret == status
  {
    var r := ToInt8(status);
    if r < 0 then (if r == -EAGAIN then 0 else r) else 0
  }

  /** `app_sensors_handler`.  `capacity` is `BYTE_PAYLOAD` from
      `app_sensors.h`, whose value this model leaves open; the handler writes 16 bytes into it, so it must
      hold at least that many.  Besides the return code and what was sent,
      the method yields the final contents of `byte_payload`. */
  method SensorsHandler(capacity: nat, timestamp: Uint64, deviceReady: bool,
                        ain1: Int16, temp: Int16, hum: Int16, sendStatus: int)
    returns (ret: Int8, buffer: seq<Uint8>, sent: Option<SendRequest>)
    requires capacity >= FRAME_LENGTH
    ensures |buffer| == capacity
    ensures buffer[..TIMESTAMP_BYTES] == TimestampField(timestamp)
    ensures !deviceReady ==>
              ret == -ENODEV && sent == None
              && forall k :: TIMESTAMP_BYTES <= k < capacity ==> buffer[k] == 0
    ensures deviceReady ==>
              buffer[..FRAME_LENGTH] == Frame(timestamp, SensorValues(ain1, temp, hum))
              && (forall k :: FRAME_LENGTH <= k < capacity ==> buffer[k] == 0)
              && sent == Some(SendRequest(LORAWAN_PORT, buffer[..FRAME_LENGTH], false))
              && ret == SendReturnCode(sendStatus)
  {
    var payload := new Uint8[capacity](_ => 0);
    var tsField := TimestampField(timestamp);

    for i := 0 to TIMESTAMP_BYTES
      invariant forall k :: 0 <= k < i ==> payload[k] == tsField[k]
      invariant forall k :: i <= k < capacity ==> payload[k] == 0
    {
      payload[i] := (timestamp / Pow2(56 - i * 8)) % 256;
    }

    if !deviceReady {
      ret, buffer, sent := -ENODEV, payload[..], None;
      assert buffer[..TIMESTAMP_BYTES] == tsField;
      return;
    }

    var index := TIMESTAMP_BYTES;
    var sensorData := SensorValues(ain1, temp, hum);
    var valField := ValueField(sensorData);
    for j := 0 to VALUE_COUNT
      invariant index == TIMESTAMP_BYTES + 2 * j
      invariant forall k :: 0 <= k < TIMESTAMP_BYTES ==> payload[k] == tsField[k]
      invariant forall k :: 0 <= k < 2 * j ==> payload[TIMESTAMP_BYTES + k] == valField[k]
      invariant forall k :: index <= k < capacity ==> payload[k] == 0
    {
      payload[index] := HighByte(sensorData[j]);
      index := index + 1;
      payload[index] := LowByte(sensorData[j]);
      index := index + 1;
    }

    buffer := payload[..];
    assert buffer[..FRAME_LENGTH] == Frame(timestamp, sensorData);
    sent := Some(SendRequest(LORAWAN_PORT, payload[..index], false));
    ret := SendReturnCode(sendStatus);
  }

  // ----- properties ---------------------------------------------------------

  lemma {:induction false} Pow2Add(a: nat, b: nat)
    ensures Pow2(a + b) == Pow2(a) * Pow2(b)
  {
    if a > 0 {
      Pow2Add(a - 1, b);
    }
  }

  lemma {:induction false} MulAtLeast(d: nat, m: nat)
    ensures d * m >= 0
  {
    if m > 0 {
      MulAtLeast(d, m - 1);
      assert d * m == d * (m - 1) + d;
    }
  }

  lemma DivUnique(x: int, d: int, q: int, r: int)
    requires d > 0 && 0 <= r < d && x == d * q + r
    ensures x / d == q
  {
    var q0, r0 := x / d, x % d;
    if q > q0 {
      MulAtLeast(d, q - q0 - 1);
      assert false;
    } else if q < q0 {
      MulAtLeast(d, q0 - q - 1);
      assert false;
    }
  }

  lemma DivDiv(x: nat, a: nat, b: nat)
    requires a > 0 && b > 0
    ensures x / a / b == x / (a * b)
  {
    var q, r := x / a, x % a;
    var q2, r2 := q / b, q % b;
    assert x == a * q + r;
    assert q == b * q2 + r2;
    assert a * q == a * (b * q2) + a * r2;
    assert a * (b * q2) == (a * b) * q2;
    MulAtLeast(a, b - 1 - r2);
    assert a * (b - 1 - r2) == a * b - a - a * r2;
    DivUnique(x, a * b, q2, a * r2 + r);
  }

  lemma DivBelow(x: nat, a: nat, b: nat)
    requires a > 0 && x < a * b
    ensures x / a < b
  {
    if x / a >= b {
      MulAtLeast(a, x / a - b);
      assert false;
    }
  }

  /** Dropping the last byte of a big-endian field is the field of `x / 256`. */
  lemma ByteFieldShift(x: nat, n: nat, i: nat)
    requires i < n - 1
    ensures ByteField(x, n)[i] == ByteField(x / 256, n - 1)[i]
  {
    var p := Pow2(8 * (n - 2 - i));
    Pow2Add(8, 8 * (n - 2 - i));
    assert Pow2(8) == 256;
    assert Pow2(8 * (n - 1 - i)) == 256 * p;
    DivDiv(x, 256, p);
  }

  /** A big-endian field of `n` bytes is the field of `x / 256` followed by
      the low byte of `x`. */
  lemma ByteFieldSplit(x: nat, n: nat)
    requires n > 0
    ensures ByteField(x, n) == ByteField(x / 256, n - 1) + [x % 256]
  {
    var f, g := ByteField(x, n), ByteField(x / 256, n - 1);
    forall i | 0 <= i < n - 1
      ensures f[i] == g[i]
    {
      ByteFieldShift(x, n, i);
    }
    assert Pow2(8 * (n - 1 - (n - 1))) == 1;
    assert f[n - 1] == x % 256;
    assert f == g + [x % 256];
  }

  /** Reading back `n` big-endian bytes gives the number written, for every
      number that fits in `n` bytes. */
  lemma {:induction false} BeRoundTrip(x: nat, n: nat)
    requires x < Pow2(8 * n)
    ensures BeValue(ByteField(x, n)) == x
  {
    if n > 0 {
      var f, g := ByteField(x, n), ByteField(x / 256, n - 1);
      ByteFieldSplit(x, n);
      var p := Pow2(8 * (n - 1));
      Pow2Add(8, 8 * (n - 1));
      assert Pow2(8) == 256;
      assert x < 256 * p;
      DivBelow(x, 256, p);
      BeRoundTrip(x / 256, n - 1);
      assert f[..n - 1] == g;
      assert BeValue(f) == BeValue(g) * 256 + x % 256;
    }
  }

  /** Reassembling bytes 0..7 of a frame yields the timestamp. */
  lemma TimestampRoundTrip(ts: Uint64)
    ensures BeValue(TimestampField(ts)) == ts
  {
    assert Pow2(64) == UINT64_MODULUS by {
      Pow2Add(32, 32);
      Pow2Add(16, 16);
      Pow2Add(8, 8);
      assert Pow2(8) == 256;
    }
    BeRoundTrip(ts, TIMESTAMP_BYTES);
  }

  /** Recombining `(hi << 8) | lo` of a value gives its 16-bit pattern, and
      reading bit 15 of that as a sign gives back the `int16`. */
  lemma Int16BytesRoundTrip(v: Int16)
    ensures var w := HighByte(v) * 256 + LowByte(v);
            w == ToUint16(v) && SignCorrect(w) == v
  {
    var w := HighByte(v) * 256 + LowByte(v);
    if v >= 0 {
      assert w == v;
    } else {
      assert w == v + 0x1_0000;
    }
    SignCorrectInvertsWrap(v, w);
  }

  /** The frame is exactly 16 bytes, with value `j` at bytes `8+2j` and `9+2j`. */
  lemma FrameLayout(ts: Uint64, ain1: Int16, temp: Int16, hum: Int16)
    ensures var f := Frame(ts, SensorValues(ain1, temp, hum));
            |f| == FRAME_LENGTH
            && f[..TIMESTAMP_BYTES] == TimestampField(ts)
            && f[8] == HighByte(ain1) && f[9] == LowByte(ain1)
            && f[10] == HighByte(temp) && f[11] == LowByte(temp)
            && f[12] == HighByte(hum) && f[13] == LowByte(hum)
            && f[14] == 0 && f[15] == 0
  {
  }
}
