/** The failure-carrying datatypes the publisher's Go functions express with an extra `error` result. */
module Wrappers {

  datatype Option<+T> = None | Some(value: T)

  /** A value or the error that stopped its computation (Go's `(T, error)` pair). */
  datatype Result<+T, +E> = Success(value: T) | Failure(error: E)

  /** Success or the error that stopped it (a Go function returning only `error`). */
  datatype Outcome<+E> = Pass | Fail(error: E)
}
