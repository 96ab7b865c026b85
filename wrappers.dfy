/** Failure-compatible wrappers and byte strings shared by the three modules. */
module Wrappers {

  /** An optional value: Swift's `T?`. */
  datatype Option<+T> = None | Some(value: T)

  /** The outcome of a throwing Swift function: a value, or the error thrown. */
  datatype Result<+R, +E> = Success(value: R) | Failure(error: E)

  /** One octet, as Swift's `UInt8` (`Byte`). */
  newtype Byte = x: int | 0 <= x < 256

  /** A byte buffer (`Buffer`, `Array<UInt8>`). */
  type Bytes = seq<Byte>

  /** Bitwise exclusive or of two octets, Swift's `^` on `UInt8`. */
  function XorByte(a: Byte, b: Byte): Byte
  {
    ((a as bv8) ^ (b as bv8)) as Byte
  }
}
