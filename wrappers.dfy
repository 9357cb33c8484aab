/** Small failure-carrying datatypes for Go's `(value, error)` returns. */
module Wrappers {

  datatype Option<+T> = None | Some(value: T)

  /** A Go `(T, error)` pair: the error itself carries nothing the model uses. */
  datatype Result<+T> = Ok(value: T) | Err
}
