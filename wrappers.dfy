/** Option and Result, the failure-carrying datatypes used throughout the model. */
module Wrappers {

  datatype Option<+T> = None | Some(value: T)

  /** A computation that either produced a value or aborted with an error. */
  datatype Result<+R, +E> = Ok(value: R) | Err(error: E)
}
