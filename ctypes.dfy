/** The C integer widths and the optional value the model needs. */
module CTypes {

  /** The largest `unsigned int` on the 32-bit target (0xFFFFFFFF). */
  const UINT32_MAX: int := 0xFFFF_FFFF

  /** 2^32: the modulus of `unsigned int` arithmetic. */
  const UINT32_MODULUS: int := 0x1_0000_0000

  /** C `unsigned int`. */
  newtype uint32 = x: int | 0 <= x < 0x1_0000_0000

  /** A value that may be absent (a C pointer that may be NULL). */
  datatype Option<T> = None | Some(value: T)
}
