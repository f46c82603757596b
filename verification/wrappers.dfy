/** Optional values and outcomes that may fail, as used throughout the model. */
module Wrappers {

  datatype Option<T> = None | Some(value: T)

  /** An operation that either produces a value or fails with an error description. */
  datatype Result<T, E> = Success(value: T) | Failure(error: E)
}
