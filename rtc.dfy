/** The DS3231 real-time clock: binary-coded-decimal conversion, the mapping
    between a `struct tm` and the clock's seven time registers, and the
    millisecond timestamp built from the clock and the system uptime.
    Bus transfers, `rtc_get_time`, `k_uptime_get` and `mktime` are inputs. */
module Rtc {
  import opened MachineInts

  const REGISTER_COUNT: nat := 7

  /** A byte whose two nibbles are decimal digits. */
  predicate ValidBcd(b: Uint8)
  {
    b / 16 <= 9 && b % 16 <= 9
  }

  /** `bcd_to_decimal`: high nibble times ten plus low nibble.  A valid BCD
      byte gives the number whose tens and units are its two nibbles. */
  function BcdToDecimal(val: Uint8): (d: Uint8)
    ensures ValidBcd(val) ==> d <= 99 && d / 10 == val / 16 && d % 10 == val % 16
  {
    (val / 16) * 10 + val % 16
  }

  /** `decimal_to_bcd`: tens in the high nibble, units in the low one.
      `<< 4` multiplies by 16 and `|` adds, the units being below 16; the
      `uint8_t` return type keeps the low 8 bits.  For 0..99 the result is
      the valid BCD byte whose nibbles are the two decimal digits. */
  function DecimalToBcd(val: Uint8): (b: Uint8)
    ensures val <= 99 ==> ValidBcd(b) && b <= 0x99 && b / 16 == val / 10 && b % 16 == val % 10
  {
    PackedDigits(val);
    ToUint8((val / 10) * 16 + val % 10)
  }

  /** For 0..99 the packed digits fit a byte and sit in its two nibbles. */
  lemma PackedDigits(val: Uint8)
    ensures var packed := (val / 10) * 16 + val % 10;
            val <= 99 ==> packed < 0x100 && packed / 16 == val / 10 && packed % 16 == val % 10
  {
    if val <= 99 {
      var packed := (val / 10) * 16 + val % 10;
      assert packed < 0x100;
      assert packed / 16 == val / 10 && packed % 16 == val % 10;
    }
  }

  /** The seven calendar fields of a `struct tm` that the clock stores
      (C `int`s). */
  datatype Tm = Tm(sec: int, min: int, hour: int, wday: int, mday: int, mon: int, year: int)

  /** The register block `app_rtc_set_time` writes: sec, min, hour, wday,
      mday, month counted from 1, year counted from 2000.  Each field is
      first converted to the `uint8_t` parameter of `decimal_to_bcd`. */
  function EncodeRegisters(t: Tm): (regs: seq<Uint8>)
    ensures |regs| == REGISTER_COUNT
  {
    [ DecimalToBcd(ToUint8(t.sec)), DecimalToBcd(ToUint8(t.min)),
      DecimalToBcd(ToUint8(t.hour)), DecimalToBcd(ToUint8(t.wday)),
      DecimalToBcd(ToUint8(t.mday)), DecimalToBcd(ToUint8(t.mon + 1)),
      DecimalToBcd(ToUint8(t.year - 100)) ]
  }

  /** The fields `app_rtc_get_time` stores from the register block.  A block
      of valid BCD bytes gives fields in the registers' two-digit range. */
  function DecodeRegisters(regs: seq<Uint8>): (t: Tm)
    requires |regs| == REGISTER_COUNT
    ensures (forall i :: 0 <= i < REGISTER_COUNT ==> ValidBcd(regs[i])) ==> InRegisterRange(t)
  {
    Tm(BcdToDecimal(regs[0]), BcdToDecimal(regs[1]), BcdToDecimal(regs[2]),
       BcdToDecimal(regs[3]), BcdToDecimal(regs[4]),
       BcdToDecimal(regs[5]) - 1, BcdToDecimal(regs[6]) + 100)
  }

  /** Fields whose register values fit two decimal digits. */
  predicate InRegisterRange(t: Tm)
  {
    && 0 <= t.sec <= 99 && 0 <= t.min <= 99 && 0 <= t.hour <= 99
    && 0 <= t.wday <= 99 && 0 <= t.mday <= 99
    && -1 <= t.mon <= 98 && 100 <= t.year <= 199
  }

  /** `app_rtc_set_time` as written: it returns 1 whatever the bus write
      returned.  `writeStatus` is what `i2c_burst_write` returned. */
  method SetTime(t: Tm, writeStatus: int) returns (ret: Int8, written: seq<Uint8>)
    ensures written == EncodeRegisters(t)
    ensures ret == 1
  {
    written := EncodeRegisters(t);
    ret := 1;
  }

  /** `app_rtc_set_time` reporting a failed bus write, as its error message
      evidently intends: the negative status, narrowed to the `int8_t`
      return type, on failure, and 1 on success.  Every error code that fits
      `int8_t` is returned unchanged. */
  method SetTimeChecked(t: Tm, writeStatus: int) returns (ret: Int8, written: seq<Uint8>)
    ensures written == EncodeRegisters(t)
    ensures writeStatus < 0 ==> ret == ToInt8(writeStatus)
    ensures writeStatus >= 0 ==> ret == 1
    ensures -0x80 <= writeStatus ==> (ret < 0 <==> writeStatus < 0)
    ensures -0x80 <= writeStatus < 0 ==> ret == writeStatus
  {
    written := EncodeRegisters(t);
    if writeStatus < 0 {
      ret := ToInt8(writeStatus);
    } else {
      ret := 1;
    }
  }

  /** The caller's `struct tm`, of which `app_rtc_get_time` overwrites seven
      fields in place. */
  class TmRecord {
    var tmSec: int
    var tmMin: int
    var tmHour: int
    var tmWday: int
    var tmMday: int
    var tmMon: int
    var tmYear: int

    function Fields(): Tm
      reads this
    {
      Tm(tmSec, tmMin, tmHour, tmWday, tmMday, tmMon, tmYear)
    }

    constructor (t: Tm)
      ensures Fields() == t
    {
      tmSec, tmMin, tmHour := t.sec, t.min, t.hour;
      tmWday, tmMday, tmMon, tmYear := t.wday, t.mday, t.mon, t.year;
    }
  }

  /** `app_rtc_get_time`.  `readStatus` and `regs` are what `i2c_burst_read`
      returned and filled in; `epochSeconds` is what `mktime` returns for the
      stored fields (its normalisation of the record is not modelled). */
  method GetTime(record: TmRecord, readStatus: int, regs: seq<Uint8>, epochSeconds: int)
    returns (ret: Int32)
    requires |regs| == REGISTER_COUNT
    requires -0x8000_0000 <= readStatus
    modifies record
    ensures readStatus < 0 ==> ret == readStatus && record.Fields() == old(record.Fields())
    ensures readStatus >= 0 ==> record.Fields() == DecodeRegisters(regs) && ret == ToInt32(epochSeconds)
  {
    if readStatus < 0 {
      return readStatus;
    }
    record.tmSec := BcdToDecimal(regs[0]);
    record.tmMin := BcdToDecimal(regs[1]);
    record.tmHour := BcdToDecimal(regs[2]);
    record.tmWday := BcdToDecimal(regs[3]);
    record.tmMday := BcdToDecimal(regs[4]);
    record.tmMon := BcdToDecimal(regs[5]) - 1;
    record.tmYear := BcdToDecimal(regs[6]) + 100;
    ret := ToInt32(epochSeconds);
  }

  /** The `struct rtc_time` fields the timestamp uses. */
  datatype RtcTime = RtcTime(sec: int, min: int, hour: int)

  /** `get_high_res_timestamp` on its two defined paths: `status` is what
      `rtc_get_time` returned (0 is success) and `uptimeMs` what
      `k_uptime_get` returned.  All arithmetic is on `uint64_t`. */
  function HighResTimestamp(status: int, t: RtcTime, uptimeMs: int): (r: Uint64)
    ensures status != 0 ==> r == 0
  {
    if status == 0 then
      var rtcSeconds := ToUint64(t.sec + t.min * 60 + t.hour * 3600);
      var uptime := ToUint64(uptimeMs);
      ToUint64(rtcSeconds * 1000 + uptime % 1000)
    else 0
  }

  // ----- properties ---------------------------------------------------------

  /** Every value 0..99 survives a trip through BCD. */
  lemma DecimalRoundTrip(v: Uint8)
    requires v <= 99
    ensures BcdToDecimal(DecimalToBcd(v)) == v
  {
    var b := DecimalToBcd(v);
    assert b / 16 == v / 10 && b % 16 == v % 10;
  }

  /** Every valid BCD byte decodes to 0..99 and encodes back to itself. */
  lemma BcdRoundTrip(b: Uint8)
    requires ValidBcd(b)
    ensures BcdToDecimal(b) <= 99
    ensures DecimalToBcd(BcdToDecimal(b)) == b
  {
    var d := BcdToDecimal(b);
    assert d / 10 == b / 16 && d % 10 == b % 16;
  }

  /** One register: an in-range field value written and read back. */
  lemma RegisterRoundTrip(x: int)
    requires 0 <= x <= 99
    ensures ValidBcd(DecimalToBcd(ToUint8(x)))
    ensures BcdToDecimal(DecimalToBcd(ToUint8(x))) == x
  {
    assert ToUint8(x) == x;
    DecimalRoundTrip(x);
  }

  /** Writing a `struct tm` with in-range fields and reading the registers
      back reproduces every field. */
  lemma RegistersRoundTrip(t: Tm)
    requires InRegisterRange(t)
    ensures forall i :: 0 <= i < REGISTER_COUNT ==> ValidBcd(EncodeRegisters(t)[i])
    ensures DecodeRegisters(EncodeRegisters(t)) == t
  {
    var regs := EncodeRegisters(t);
    RegisterRoundTrip(t.sec);
    RegisterRoundTrip(t.min);
    RegisterRoundTrip(t.hour);
    RegisterRoundTrip(t.wday);
    RegisterRoundTrip(t.mday);
    RegisterRoundTrip(t.mon + 1);
    RegisterRoundTrip(t.year - 100);
    var d := DecodeRegisters(regs);
    assert d.sec == t.sec && d.min == t.min && d.hour == t.hour;
    assert d.wday == t.wday && d.mday == t.mday;
    assert d.mon == t.mon && d.year == t.year;
  }

  /** Reading a valid register block and writing the fields back gives the
      same block. */
  lemma FieldsRoundTrip(regs: seq<Uint8>)
    requires |regs| == REGISTER_COUNT
    requires forall i :: 0 <= i < REGISTER_COUNT ==> ValidBcd(regs[i])
    ensures EncodeRegisters(DecodeRegisters(regs)) == regs
  {
    var t := DecodeRegisters(regs);
    RegisterOfField(regs[0]);
    RegisterOfField(regs[1]);
    RegisterOfField(regs[2]);
    RegisterOfField(regs[3]);
    RegisterOfField(regs[4]);
    RegisterOfField(regs[5]);
    RegisterOfField(regs[6]);
    assert t.mon + 1 == BcdToDecimal(regs[5]);
    assert t.year - 100 == BcdToDecimal(regs[6]);
    var e := EncodeRegisters(t);
    assert e[0] == regs[0] && e[1] == regs[1] && e[2] == regs[2] && e[3] == regs[3];
    assert e[4] == regs[4] && e[5] == regs[5] && e[6] == regs[6];
  }

  /** One register: a valid BCD byte read as a field and written back. */
  lemma RegisterOfField(b: Uint8)
    requires ValidBcd(b)
    ensures DecimalToBcd(ToUint8(BcdToDecimal(b))) == b
  {
    var d := BcdToDecimal(b);
    BcdRoundTrip(b);
    ToUint8Identity(d);
  }

  lemma MillisecondPart(s: nat, r: nat)
    requires r < 1000
    ensures (s * 1000 + r) % 1000 == r
  {
  }

  /** For clock readings in the clock's ranges and a non-negative uptime,
      the timestamp is the seconds of the day in milliseconds plus the
      millisecond part of the uptime, and nothing wraps. */
  lemma HighResTimestampValue(t: RtcTime, uptimeMs: int)
    requires 0 <= t.sec <= 60 && 0 <= t.min <= 59 && 0 <= t.hour <= 23
    requires 0 <= uptimeMs < UINT64_MODULUS
    ensures HighResTimestamp(0, t, uptimeMs)
            == (t.sec + 60 * t.min + 3600 * t.hour) * 1000 + uptimeMs % 1000
    ensures HighResTimestamp(0, t, uptimeMs) % 1000 == uptimeMs % 1000
  {
    var s := t.sec + t.min * 60 + t.hour * 3600;
    assert 0 <= s < 100_000;
    assert ToUint64(s) == s;
    assert ToUint64(uptimeMs) == uptimeMs;
    var r := uptimeMs % 1000;
    assert 0 <= s * 1000 + r < 100_000_000;
    assert ToUint64(s * 1000 + r) == s * 1000 + r;
    MillisecondPart(s, r);
  }
}
