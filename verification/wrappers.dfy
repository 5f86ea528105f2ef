/** Failure-carrying values used in place of Go's `(value, error)` pairs and nil checks. */
module Wrappers {

  /** A value that may be absent (a nil pointer or a nil error in Go). */
  datatype Option<+T> = None | Some(value: T)

  /** Either a value or an error, never both (Go's `(T, error)` return convention). */
  datatype Result<+T, +E> = Success(value: T) | Failure(error: E)
}
