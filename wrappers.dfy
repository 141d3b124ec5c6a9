/** Failure-carrying results used throughout the model: `Option` for a value
    that may be absent (a SQL row, a regex match), `Result` for an operation
    that may throw, `Outcome` for a check that either passes or throws. */
module Wrappers {

  datatype Option<+T> = None | Some(value: T)

  datatype Result<+R, +E> = Success(value: R) | Failure(error: E)

  datatype Outcome<+E> = Pass | Fail(error: E)
}
