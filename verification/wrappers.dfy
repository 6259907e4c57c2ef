/** Option and Result, used for Go's `(value, error)` returns and missing map keys. */
module Wrappers {

  datatype Option<+T> = None | Some(value: T)

  datatype Result<+T, +E> = Ok(value: T) | Err(error: E)
}
