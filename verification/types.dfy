/** Fixed-width integers of the C++ engine and the optional value used
    where the engine returns an empty `std::optional`. */
module Types {

  const TWO_TO_THE_32: int := 0x1_0000_0000

  /** C++ `uint32_t`. */
  newtype uint32 = x: int | 0 <= x < 0x1_0000_0000

  /** C++ `int` on the engine's targets (32-bit two's complement). */
  newtype int32 = x: int | -0x8000_0000 <= x < 0x8000_0000

  /** `INT_MAX` for `int32`. */
  const INT32_MAX: int := 0x7FFF_FFFF

  /** The value a C-style `(uint32_t)` cast keeps of a non-negative count:
      the count itself when it fits, otherwise its low 32 bits. */
  function Wrap32(n: nat): (r: uint32)
    ensures n < TWO_TO_THE_32 ==> r as int == n
    ensures (n - r as int) % TWO_TO_THE_32 == 0
  {
    (n % TWO_TO_THE_32) as uint32
  }

  datatype Option<+T> = None | Some(value: T)
}
