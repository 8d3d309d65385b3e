/** Failure-carrying wrappers used throughout the model: Java's nullable
    references and Optional become Option, a call that may throw becomes a
    Result (a value) or an Outcome (no value). */
module Wrappers {

  datatype Option<+T> = None | Some(value: T)

  datatype Result<+T, +E> = Success(value: T) | Failure(error: E)

  datatype Outcome<+E> = Pass | Fail(error: E)
}
