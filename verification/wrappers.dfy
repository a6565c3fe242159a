/** Optional values and fallible results used throughout the model. */
module Wrappers {

  /** A value that may be absent; stands in for a JavaScript `null` link. */
  datatype Option<+T> = None | Some(value: T)

  /** The outcome of an operation that may fail an assertion or raise. */
  datatype Result<+T, +E> = Success(value: T) | Failure(error: E)
}
