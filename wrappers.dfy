/** Failure-compatible result types used for the store's error paths. */
module Wrappers {

  datatype Option<+T> = None | Some(value: T)

  /** A value, or the error that an operation throws instead. */
  datatype Result<+R, +E> = Success(value: R) | Failure(error: E)

  /** Success without a value, or the error that an operation throws. */
  datatype Outcome<+E> = Pass | Fail(error: E)
}
