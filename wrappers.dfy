/** Optional values and results with an error, for the source's null returns and exceptions. */
module Wrappers {

  /** A value that may be absent (the source's `Optional` and nullable references). */
  datatype Option<T> = None | Some(value: T)

  /** A value, or the error the operation raises instead. */
  datatype Result<T, E> = Success(value: T) | Failure(error: E)
}
