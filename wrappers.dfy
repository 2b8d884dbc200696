/** Option and Result, used for absent cells and for the error paths of the
    request handlers. */
module Wrappers {

  /** A value that may be absent (a missing or NaN table cell, a missing JSON field). */
  datatype Option<+T> = None | Some(value: T)

  /** The outcome of an operation that can fail with an error value. */
  datatype Result<+R, +E> = Success(value: R) | Failure(error: E)
}
