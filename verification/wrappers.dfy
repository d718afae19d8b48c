/** Failure-compatible wrappers shared by the modules of the model. */
module Wrappers {

  /** A value that may be absent (a Go `(T, error)` pair whose error carries nothing). */
  datatype Option<+T> = None | Some(value: T)

  /** A value or an error (a Go `(T, error)` pair whose error carries a message). */
  datatype Result<+T, +E> = Success(value: T) | Failure(error: E)
}
