/** Optional values and results carrying an error, used throughout the model. */
module Wrappers {

  /** A value that may be absent: Python's `None` or an attribute the tracker did not send. */
  datatype Option<+T> = None | Some(value: T)

  /** The outcome of a request: a value, or the error the handler raises. */
  datatype Result<+R, +E> = Success(value: R) | Failure(error: E)
}
