/** Failure-compatible wrappers used in place of Python's `None` sentinels and exceptions. */
module Wrappers {

  /** A value that may be absent (Python's `None`, or `float('inf')` used as "nothing yet"). */
  datatype Option<+T> = None | Some(value: T)

  /** A computation that either yields a value or raises an error. */
  datatype Result<+T, +E> = Success(value: T) | Failure(error: E)

  /** A computation that yields nothing, or raises an error. */
  datatype Outcome<+E> = Pass | Fail(error: E)
}
