/** Optional values and success/failure results, used wherever the source returns null
    or throws. */
module Wrappers {

  /** A value that may be absent (the source's `null`). */
  datatype Option<+T> = None | Some(value: T)

  /** The outcome of an operation that may fail (the source's exceptions). */
  datatype Result<+R, +E> = Success(value: R) | Failure(error: E)
}
