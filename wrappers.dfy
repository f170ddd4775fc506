/** Failure-carrying results used across the model. */
module Wrappers {

  datatype Option<+T> = None | Some(value: T)

  /** The value of a computation that may raise, with what it raised. */
  datatype Result<+T, +E> = Ok(value: T) | Err(error: E)
}
