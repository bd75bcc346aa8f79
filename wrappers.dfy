/** Failure-compatible wrappers used for the source's `None` values and raised errors. */
module Wrappers {

  /** A value that may be absent: a nullable database column, or "no result". */
  datatype Option<+T> = None | Some(value: T)

  /** The value of an operation, or the error it raises. */
  datatype Result<+T, +E> = Ok(value: T) | Err(error: E)
}
