/** The byte and machine-integer types every module works with. */
module Bytes {
  /** A byte, as held in a std::vector<uint8_t>, a uint8_t array or a Python bytearray. */
  type byte = x: int | 0 <= x < 256

  type uint16 = x: int | 0 <= x < 0x1_0000
  type int16 = x: int | -0x8000 <= x < 0x8000
  type uint32 = x: int | 0 <= x < 0x1_0000_0000
  type int32 = x: int | -0x8000_0000 <= x < 0x8000_0000

  /**
   * Integer division as C and C++ do it, and as Python's int() does it to a
   * float quotient: the quotient is truncated toward zero.  Dafny's own `/`
   * rounds toward negative infinity for a positive divisor.
   */
  function TruncDiv(a: int, d: int): (q: int)
    requires d > 0
    ensures a >= 0 ==> q * d <= a < q * d + d
    ensures a < 0 ==> q * d - d < a <= q * d
    ensures a >= 0 ==> q >= 0
    ensures a <= 0 ==> q <= 0
  {
    if a >= 0 then a / d else -((-a) / d)
  }

  /** A value that may be absent: a C NULL, a Python None, a key not present. */
  datatype Option<T> = None | Some(value: T)

  function Min(a: int, b: int): int
  {
    if a <= b then a else b
  }
}
