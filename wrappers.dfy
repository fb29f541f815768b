/** Option and Result carriers shared by every module of the model. */
module Wrappers {

  /** A value that may be missing: JavaScript's `null` and Python's `None`. */
  datatype Option<+T> = None | Some(value: T)

  /** The outcome of a validation step: a value, or the error it raised. */
  datatype Result<+R, +E> = Success(value: R) | Failure(error: E)
}
