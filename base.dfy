/** Small shared datatypes: optional values and bytes. */
module Base {

  /** A value that may be absent (a PHP `null`, an SQL NULL, a missing key). */
  datatype Option<T> = None | Some(value: T)

  /** One octet of a PHP byte string. */
  type byte = b: int | 0 <= b < 256

  /** Positive integers, used as divisors. */
  type pos = n: int | n > 0 witness 1
}
