/** Failure-carrying values used in place of Go's `nil` and `(value, error)` returns. */
module Wrappers {

  /** A value that may be absent, as a Go slice or pointer that may be `nil`. */
  datatype Option<+T> = None | Some(value: T)

  /** The `(value, error)` pair of a Go call: either the value or an error description. */
  datatype Result<+T> = Ok(value: T) | Err(reason: string)
}
