/** Optional values and success/failure results used throughout the model. */
module Wrappers {

  /** A cell that may be missing (pandas' NaN) or a value that may be absent. */
  datatype Option<+T> = None | Some(value: T)

  /** The outcome of a step that can raise: a value, or the error it raised. */
  datatype Result<+R, +E> = Ok(value: R) | Fail(error: E)
}
