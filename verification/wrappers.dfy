/** Optional values and outcomes that may fail, shared by the other modules. */
module Wrappers {

  /** A value that may be absent: Python's `None` or an object. */
  datatype Option<+T> = None | Some(value: T)

  /** The outcome of an operation that either completes or raises. */
  datatype Result<+T, +E> = Success(value: T) | Failure(error: E)
}
