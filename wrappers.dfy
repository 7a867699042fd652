/** Optional values and success/failure results used across the model. */
module Wrappers {

  /** Python's `None` or a present value. */
  datatype Option<+T> = None | Some(value: T)

  /** A value, or the error that Python would have raised instead. */
  datatype Result<+R, +E> = Success(value: R) | Failure(error: E)
}
