/** Option and Result values for the operations of the utility layer that can fail. */
module Wrappers {

  datatype Option<+T> = None | Some(value: T)

  /** A PHP exception becomes an `Err` carrying what was thrown. */
  datatype Result<+T, +E> = Ok(value: T) | Err(error: E)
}
