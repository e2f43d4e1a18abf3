/** Failure-compatible wrappers shared by the whole model. */
module Wrappers {

  /** An optional value: `None` stands for Go's "nothing found" / nil. */
  datatype Option<+T> = None | Some(value: T)

  /** A value or an error, for the Go functions that return `(T, error)`. */
  datatype Result<+T, +E> = Success(value: T) | Failure(error: E)
}
