/** Failure-carrying result types used for the exceptions the registry raises. */
module Wrappers {

  datatype Option<+T> = None | Some(value: T)

  /** A computation that produced a value or failed with an error. */
  datatype Result<+R, +E> = Success(value: R) | Failure(error: E)

  /** A computation that produced no value and either passed or failed. */
  datatype Outcome<+E> = Pass | Fail(error: E)
}
