/** Option and Result values used for the Go code's nil results and error returns. */
module Wrappers {

  datatype Option<+T> = None | Some(value: T)

  /** A Go `(value, error)` pair: exactly one of the two is meaningful. */
  datatype Result<+T, +E> = Ok(value: T) | Err(error: E)

  /** A Go call that returns only an `error`. */
  datatype Status<+E> = Done | Failed(error: E)
}
