/** Fixed-width integer types of the firmware (C `uint8_t`, `int16_t`, ...)
    as subsets of the unbounded integers, the C conversions between them,
    and a small Option type. */
module MachineInts {

  type Uint8 = x: int | 0 <= x < 0x100
  type Int8 = x: int | -0x80 <= x < 0x80
  type Uint16 = x: int | 0 <= x < 0x1_0000
  type Int16 = x: int | -0x8000 <= x < 0x8000
  type Int32 = x: int | -0x8000_0000 <= x < 0x8000_0000
  type Uint64 = x: int | 0 <= x < 0x1_0000_0000_0000_0000

  const UINT64_MODULUS: int := 0x1_0000_0000_0000_0000

  /** Conversion of any integer to `uint8_t`: reduction modulo 2^8. */
  function ToUint8(x: int): Uint8 { x % 0x100 }

  /** Conversion of any integer to `uint16_t`: reduction modulo 2^16. */
  function ToUint16(x: int): Uint16 { x % 0x1_0000 }

  /** Conversion of any integer to `uint64_t`: reduction modulo 2^64. */
  function ToUint64(x: int): Uint64 { x % UINT64_MODULUS }

  /** Conversion of an `int` to `int8_t` as the ARM compilers do it:
      keep the low 8 bits and read them as two's complement. */
  function ToInt8(x: int): Int8
  {
    var m := x % 0x100;
    if m >= 0x80 then m - 0x100 else m
  }

  /** Conversion of an integer to `int32_t`, two's complement wrap-around. */
  function ToInt32(x: int): Int32
  {
    var m := x % 0x1_0000_0000;
    if m >= 0x8000_0000 then m - 0x1_0000_0000 else m
  }

  /** Converting a value that already fits in a byte leaves it unchanged. */
  lemma ToUint8Identity(x: int)
    requires 0 <= x < 0x100
    ensures ToUint8(x) == x
  {
  }

  /** A 16-bit word read as two's complement, bit 15 being the sign bit:
      `if (w & 0x8000) w -= 0x10000`. */
  function SignCorrect(w: Uint16): (v: Int16)
    ensures (v - w) % 0x1_0000 == 0
    ensures v < 0 <==> w >= 0x8000
  {
    if (w / 0x8000) % 2 == 1 then w - 0x1_0000 else w
  }

  /** Sign correction undoes the conversion to `uint16_t`, and the other way
      round. */
  lemma SignCorrectInvertsWrap(v: Int16, w: Uint16)
    ensures SignCorrect(ToUint16(v)) == v
    ensures ToUint16(SignCorrect(w)) == w
  {
  }

  datatype Option<T> = None | Some(value: T)
}
