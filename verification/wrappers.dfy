/** Optional values and results that carry either a value or an error. */
module Wrappers {

  /** A value that may be absent (PHP's `null`). */
  datatype Option<+T> = None | Some(value: T)

  /** The value of an operation, or the exception it raised. */
  datatype Result<+T, +E> = Success(value: T) | Failure(error: E)
}
