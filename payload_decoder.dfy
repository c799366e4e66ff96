/** The network-server side: `decodeUplink`, which turns the bytes of an
    uplink into battery, temperature, humidity and velocity readings.
    Input bytes are 0..255, as the network server delivers them; the script's
    thrown exception is an outcome of its own. */
module Decoder {
  import opened MachineInts
  import Sensors

  /** The length the script accepts: four 16-bit words. */
  const EXPECTED_LENGTH: nat := 8
  const LENGTH_WARNING: string := "payload length is not 6 bytes as expected."

  datatype DecodedData = DecodedData(battery: int, temperature: real, humidity: real, velocity: int)

  /** The three ways `decodeUplink` can end. */
  datatype Uplink =
    | Warnings(warnings: seq<string>)   // `{ warnings: [...] }`, no `data`
    | Data(data: DecodedData)           // `{ data: {...} }`
    | ReferenceError(name: string)      // reading an undeclared name throws

  /** `(hi << 8) | lo`: the shifted high byte has its low 8 bits clear, so
      the `|` adds the low byte. */
  function Word(hi: Uint8, lo: Uint8): (w: Uint16)
    ensures w / 256 == hi && w % 256 == lo
  {
    hi * 256 + lo
  }

  /** The reading of the word at bytes `2i` and `2i+1`: the `int16` whose
      16-bit pattern is that big-endian word. */
  function Field(bytes: seq<Uint8>, i: nat): (v: Int16)
    requires 2 * i + 1 < |bytes|
    ensures ToUint16(v) == bytes[2 * i] as int * 256 + bytes[2 * i + 1]
  {
    var w := Word(bytes[2 * i], bytes[2 * i + 1]);
    SignCorrectInvertsWrap(0, w);
    SignCorrect(w)
  }

  /** The returned object: battery and velocity unscaled, temperature and
      humidity in hundredths. */
  function Scaled(battery: Int16, temperature: Int16, humidity: Int16, velocity: Int16): (r: DecodedData)
    ensures r.battery == battery && r.velocity == velocity
    ensures r.temperature * 100.0 == temperature as real
    ensures r.humidity * 100.0 == humidity as real
  {
    DecodedData(battery, temperature as real / 100.0, humidity as real / 100.0, velocity)
  }

  /** `decodeUplink` as written.  After the length check it assembles and
      sign-corrects battery, temperature and humidity, none of which has an
      effect that is observable once the script throws; the sign test on the
      velocity word reads `velicity`, which is declared nowhere, so every
      input that passes the length check ends in a `ReferenceError`. */
  function DecodeUplink(bytes: seq<Uint8>): (r: Uplink)
    ensures r.Warnings? <==> |bytes| != EXPECTED_LENGTH
    ensures !r.Data?
  {
    if |bytes| != EXPECTED_LENGTH then Warnings([LENGTH_WARNING])
    else ReferenceError("velicity")
  }

  /** `decodeUplink` with the sign test on `velocity`, as the three lines
      above it evidently intend. */
  function DecodeUplinkFixed(bytes: seq<Uint8>): (r: Uplink)
    ensures r.Data? <==> |bytes| == EXPECTED_LENGTH
    ensures !r.ReferenceError?
    ensures r.Data? ==>
              && -0x8000 <= r.data.battery < 0x8000 && -0x8000 <= r.data.velocity < 0x8000
              && -327.68 <= r.data.temperature <= 327.67 && -327.68 <= r.data.humidity <= 327.67
  {
    if |bytes| != EXPECTED_LENGTH then Warnings([LENGTH_WARNING])
    else Data(Scaled(Field(bytes, 0), Field(bytes, 1), Field(bytes, 2), Field(bytes, 3)))
  }

  /** A decoder for the whole 16-byte frame the node sends: the 8-byte
      timestamp followed by the same four words. */
  datatype DecodedFrame = DecodedFrame(timestamp: nat, data: DecodedData)

  function DecodeFrame(bytes: seq<Uint8>): (r: Option<DecodedFrame>)
    ensures r.Some? <==> |bytes| == Sensors.FRAME_LENGTH
  {
    if |bytes| != Sensors.FRAME_LENGTH then None
    else
      var values := bytes[Sensors.TIMESTAMP_BYTES..];
      Some(DecodedFrame(Sensors.BeValue(bytes[..Sensors.TIMESTAMP_BYTES]),
                        Scaled(Field(values, 0), Field(values, 1), Field(values, 2), Field(values, 3))))
  }

  // ----- properties ---------------------------------------------------------

  /** The script as written and the corrected one answer every wrong-sized
      input with the same warning; they differ on every right-sized input,
      which the corrected script decodes and the script as written throws on. */
  lemma DecodeUplinkOutcomes(bytes: seq<Uint8>)
    ensures |bytes| != EXPECTED_LENGTH ==>
              DecodeUplink(bytes) == DecodeUplinkFixed(bytes) == Warnings([LENGTH_WARNING])
    ensures |bytes| == EXPECTED_LENGTH ==>
              DecodeUplink(bytes) == ReferenceError("velicity") && DecodeUplinkFixed(bytes).Data?
  {
  }

  /** The two bytes the node writes for an `int16` decode to that `int16`. */
  lemma FieldOfInt16(v: Int16)
    ensures SignCorrect(Word(Sensors.HighByte(v), Sensors.LowByte(v))) == v
  {
    Sensors.Int16BytesRoundTrip(v);
  }

  lemma ValueFieldDecodes(vs: seq<Int16>, j: nat)
    requires j < |vs|
    ensures Field(Sensors.ValueField(vs), j) == vs[j]
  {
    var f := Sensors.ValueField(vs);
    assert f[2 * j] == Sensors.HighByte(vs[j]);
    assert f[2 * j + 1] == Sensors.LowByte(vs[j]);
    FieldOfInt16(vs[j]);
  }

  /** With the velocity fix, the value section of the node's frame decodes
      to the values the node put in it, temperature and humidity scaled. */
  lemma FixedDecodesValueSection(vs: seq<Int16>)
    requires |vs| == Sensors.VALUE_COUNT
    ensures DecodeUplinkFixed(Sensors.ValueField(vs)) == Data(Scaled(vs[0], vs[1], vs[2], vs[3]))
  {
    ValueFieldDecodes(vs, 0);
    ValueFieldDecodes(vs, 1);
    ValueFieldDecodes(vs, 2);
    ValueFieldDecodes(vs, 3);
  }

  /** The frame the node actually sends is 16 bytes long, so the script as
      written (and even with the velocity fix) answers it with the warning. */
  lemma SentFrameIsRejected(ts: Uint64, ain1: Int16, temp: Int16, hum: Int16)
    ensures var f := Sensors.Frame(ts, Sensors.SensorValues(ain1, temp, hum));
            DecodeUplink(f) == Warnings([LENGTH_WARNING])
            && DecodeUplinkFixed(f) == Warnings([LENGTH_WARNING])
  {
  }

  /** The frame decoder undoes the node's serialiser: timestamp and all four
      values come back. */
  lemma FrameRoundTrip(ts: Uint64, ain1: Int16, temp: Int16, hum: Int16)
    ensures DecodeFrame(Sensors.Frame(ts, Sensors.SensorValues(ain1, temp, hum)))
            == Some(DecodedFrame(ts, Scaled(ain1, temp, hum, 0)))
  {
    var vs := Sensors.SensorValues(ain1, temp, hum);
    var f := Sensors.Frame(ts, vs);
    assert f[..Sensors.TIMESTAMP_BYTES] == Sensors.TimestampField(ts);
    assert f[Sensors.TIMESTAMP_BYTES..] == Sensors.ValueField(vs);
    Sensors.TimestampRoundTrip(ts);
    ValueFieldDecodes(vs, 0);
    ValueFieldDecodes(vs, 1);
    ValueFieldDecodes(vs, 2);
    ValueFieldDecodes(vs, 3);
  }
}
