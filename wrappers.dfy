/** Option and Result values used for the broker's optional values and error returns. */
module Wrappers {

  datatype Option<+T> = None | Some(value: T)

  /** A success value or an error value, the model of Go's `(value, error)` pair. */
  datatype Result<+T, +E> = Ok(value: T) | Err(error: E)
}
