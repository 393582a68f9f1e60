/**
 * Fixed-width integer types and the optional value used by the packet parser
 * and the packet filter. Integers are unbounded in Dafny; every place where the
 * C++ code relies on a fixed width is written out with the helpers below.
 */
module Types {

  /** uint8_t */
  type byte = b: int | 0 <= b < 0x100

  /** uint16_t */
  type uint16 = x: int | 0 <= x < 0x1_0000

  /** uint32_t */
  type uint32 = x: int | 0 <= x < 0x1_0000_0000

  /** std::optional<T>; also stands for a pointer that may be null. */
  datatype Option<T> = None | Some(value: T)

  /** `a += b` on two uint16_t values: the sum wraps around modulo 2^16. */
  function Add16(a: uint16, b: uint16): (r: uint16)
    ensures a + b < 0x1_0000 ==> r == a + b
    ensures a + b >= 0x1_0000 ==> r == a + b - 0x1_0000
  {
    (a + b) % 0x1_0000
  }

  /** `static_cast<uint16_t>(x)` for an `int` x: keeps the low 16 bits, so the
      result is congruent to x modulo 2^16 (negative values wrap upwards). */
  function ToUint16(x: int): (r: uint16)
    ensures 0 <= x < 0x1_0000 ==> r == x
    ensures (x - r) % 0x1_0000 == 0
  {
    x % 0x1_0000
  }
}
