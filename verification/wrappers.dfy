/** Failure-carrying values used in place of Go's `(T, error)` returns and nil-able errors. */
module Wrappers {

  /** A value that may be absent (a nil pointer, a missing match, an unset error). */
  datatype Option<+T> = None | Some(value: T)

  /** The outcome of a call that returns a value or an error. */
  datatype Result<+T, +E> = Success(value: T) | Failure(error: E)

  /** The outcome of a call that returns only an error (nil on success). */
  datatype Outcome<+E> = Pass | Fail(error: E)
}
