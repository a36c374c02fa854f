/** Option and Result, the two failure-aware shapes the model uses. */
module Wrappers {

  /** A value that may be missing (Python's `None`). */
  datatype Option<+T> = None | Some(value: T)

  /** A value, or the error that aborted its computation (a raised Python exception). */
  datatype Result<+T, +E> = Success(value: T) | Failure(error: E)
}
