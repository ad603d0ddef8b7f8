/** Failure-compatible wrappers used by the model of the virtual scroll list. */
module Wrappers {

  /** A value that may be absent: `null`/`undefined` in the library. */
  datatype Option<+T> = None | Some(value: T)

  /** The outcome of an operation that may be rejected without producing a value. */
  datatype Outcome<+E> = Pass | Fail(error: E)

  /** The outcome of an operation that either produces a value or is rejected. */
  datatype Result<+T, +E> = Success(value: T) | Failure(error: E)
}
