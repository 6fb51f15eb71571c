/** Result types for the exceptions the Python code raises. */
module Wrappers {

  datatype Option<+T> = None | Some(value: T)

  datatype Result<+T, +E> = Success(value: T) | Failure(error: E)

  /** Outcome of an operation that only changes state: it passes or fails with an error. */
  datatype Outcome<+E> = Pass | Fail(error: E)
}
