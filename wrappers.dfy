/** Failure-compatible wrappers: Python's `None` and its raised exceptions. */
module Wrappers {

  /** `None` or a value, as Python's `Optional`. */
  datatype Option<+T> = None | Some(value: T)

  /** A value, or the error that the Python code would have raised instead. */
  datatype Result<+R, +E> = Success(value: R) | Failure(error: E)
}
