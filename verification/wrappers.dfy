/** Failure-carrying result types used throughout the reader model. */
module Wrappers {

  /** A value that may be absent; stands in for the source's nullable pointers. */
  datatype Option<T> = None | Some(value: T)

  /** A computation that either succeeds with a value or fails with an error. */
  datatype Result<T, E> = Success(value: T) | Failure(error: E)
}
