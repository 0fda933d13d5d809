/** Failure-compatible wrappers used across the model: `Option` for Java's nullable
    references and `Result`/`Outcome` for a call that may throw. */
module Wrappers {

  datatype Option<+T> = None | Some(value: T)

  datatype Result<+T, +E> = Success(value: T) | Failure(error: E)

  datatype Outcome<+E> = Pass | Fail(error: E)
}
