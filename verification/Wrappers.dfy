/** Failure and absence, shared by every component. */
module Wrappers {

  datatype Option<+T> = None | Some(value: T)

  /** The value of a call that may raise. */
  datatype Result<+T, +E> = Ok(value: T) | Err(error: E)
}
