/** Option and Result values used in place of null and of thrown exceptions. */
module Wrappers {

  datatype Option<+T> = None | Some(value: T)

  /** Either the value an operation computes or the error it raises. */
  datatype Result<+T, +E> = Ok(value: T) | Err(error: E)
}
