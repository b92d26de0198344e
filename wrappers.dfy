/** Failure-compatible result types used across the model. */
module Wrappers {

  /** An optional value: `Option<T>` in the driver. */
  datatype Option<+T> = None | Some(value: T)

  /** A value or an error: `Result<T, E>` in the driver. */
  datatype Result<+T, +E> = Success(value: T) | Failure(error: E) {
    predicate IsFailure() { Failure? }
  }

  /** A unit result, `Result<(), E>` in the driver. */
  datatype Outcome<+E> = Pass | Fail(error: E) {
    predicate IsFailure() { Fail? }
  }
}
