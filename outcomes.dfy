/** Failure-carrying wrappers used throughout the model. */
module Outcomes {

  /** A value that may be absent, as the nullable `DateTimeOffset?` of a table row. */
  datatype Option<+T> = None | Some(value: T)

  /** The result of a store call that returns a value or raises an error. */
  datatype Result<+T, +E> = Success(value: T) | Failure(error: E)

  /** The result of a store call that returns nothing or raises an error. */
  datatype Outcome<+E> = Pass | Fail(error: E)
}
