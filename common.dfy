/** Shared value types: bytes, optional values and error-carrying results. */
module Common {

  /** One octet of a Go `[]byte`. */
  newtype Byte = b: int | 0 <= b < 256

  /** A Go `[]byte`; a nil slice and an empty slice are both `[]`. */
  type Bytes = seq<Byte>

  datatype Option<+T> = None | Some(value: T)

  /** A Go `(value, error)` pair where exactly one side is meaningful. */
  datatype Result<+T, +E> = Ok(value: T) | Err(error: E)
}
