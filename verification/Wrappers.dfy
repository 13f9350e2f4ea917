/** Optional values and error returns, shared by every module of the model. */
module Wrappers {

  datatype Option<+T> = None | Some(value: T)

  /** A call that returns a value or raises one of the source's exceptions. */
  datatype Result<+T, +E> = Success(value: T) | Failure(error: E)
}
