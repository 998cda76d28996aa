/** Optional values and results for the operations that raise in the original program. */
module Wrappers {

  /** A value that may be absent, like Python's `None`. */
  datatype Option<+T> = None | Some(value: T)

  /** Either a value or the reason the operation raised. */
  datatype Result<+T, +E> = Success(value: T) | Failure(error: E)
}
