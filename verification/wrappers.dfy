/** Optional values and results with an error, shared by the other modules. */
module Wrappers {

  /** A value that may be absent (Python's `None`). */
  datatype Option<+T> = None | Some(value: T)

  /** The value of a computation or the error it raised. */
  datatype Result<+T, +E> = Success(value: T) | Failure(error: E)
}
