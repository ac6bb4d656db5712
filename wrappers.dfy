/** Failure-compatible wrappers shared by the other modules. */
module Wrappers {

  /** A value that may be missing: Python's `None` or a failed parse. */
  datatype Option<+T> = None | Some(value: T)

  /** The outcome of an operation that can fail with an error of type E. */
  datatype Result<+T, +E> = Success(value: T) | Failure(error: E)
}
