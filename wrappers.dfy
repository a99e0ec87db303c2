/** Option and Result: the error returns and nil pointers of the Go code. */
module Wrappers {

  /** A value that may be absent (a Go pointer that may be nil). */
  datatype Option<+T> = None | Some(value: T)

  /** The pair (value, error) that Go functions return. */
  datatype Result<+T, +E> = Success(value: T) | Failure(error: E)
}
