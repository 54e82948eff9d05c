/** Failure-compatible wrappers used throughout the route planner model. */
module Wrappers {

  /** An optional value; `None` plays the role of Python's `None`. */
  datatype Option<+T> = None | Some(value: T)

  /** The outcome of an operation that may raise: a value or the error it raised. */
  datatype Result<+T, +E> = Success(value: T) | Failure(error: E)
}
