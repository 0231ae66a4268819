/** Failure-compatible result types shared by the model. */
module Wrappers {

  /** A value that may be absent, like a Python lookup with no default. */
  datatype Option<+T> = None | Some(value: T)

  /** The outcome of a computation that Python would abort with an exception. */
  datatype Result<+R, +E> = Success(value: R) | Failure(error: E)
}
