/** Option and Result values used for the outcomes of calls that may raise. */
module Wrappers {

  datatype Option<+T> = None | Some(value: T)

  /** The value a call returned, or the error it raised. */
  datatype Result<+T, +E> = Ok(value: T) | Err(error: E)
}
