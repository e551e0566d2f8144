/** Failure-compatible result and optional values used across the model. */
module Wrappers {

  datatype Option<+T> = None | Some(value: T)

  /** The outcome of a phase that can abort the whole run. */
  datatype Result<+R, +E> = Ok(value: R) | Err(error: E)
}
