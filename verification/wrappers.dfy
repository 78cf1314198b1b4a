/** Failure-compatible wrappers used throughout the model: an absent value
    (Ruby's nil) is `None`, a raised error is `Failure` / `Fail`. */
module Wrappers {

  datatype Option<+T> = None | Some(value: T)

  datatype Result<+R, +E> = Success(value: R) | Failure(error: E)

  /** The outcome of a mutating operation that returns nothing useful. */
  datatype Outcome<+E> = Pass | Fail(error: E)
}
