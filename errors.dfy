/** The library's sentinel error, and a result type standing for Go's
    `(T, error)` return convention. */
module Errors {

  /** `ErrEmpty` signals that a collection is empty when it was not supposed to be. */
  datatype Error = ErrEmpty

  /** A Go `(T, error)` return: either a value and no error, or an error. */
  datatype Result<T> = Ok(value: T) | Err(error: Error)
}
