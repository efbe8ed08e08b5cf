/** Bytes, and optional values for null pointers and failures. */
module Bytes {
  newtype byte = b: int | 0 <= b < 256

  datatype Option<+T> = None | Some(value: T)
}
