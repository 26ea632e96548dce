/** Option and Result, the failure-carrying values used by the rest of the model. */
module Wrappers {

  /** A value that may be absent; `None` also stands for a missing (NaN) table cell. */
  datatype Option<+T> = None | Some(value: T)

  /** The outcome of an operation that can fail with an error value. */
  datatype Result<+T, +E> = Success(value: T) | Failure(error: E)
}
