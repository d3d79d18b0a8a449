/** Failure-carrying result types shared by the whole model. */
module Wrappers {

  /** A value that may be missing: Python's `None`, or an `IndexError`
      that the caller catches. */
  datatype Option<+T> = None | Some(value: T)

  /** A value or the error that a call raised. */
  datatype Result<+R, +E> = Success(value: R) | Failure(error: E)
}
