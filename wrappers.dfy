/** Option, Result and Outcome values standing for Python's None and raised exceptions. */
module Wrappers {

  datatype Option<+T> = None | Some(value: T)

  datatype Result<+R, +E> = Success(value: R) | Failure(error: E)

  /** A statement that either completes or raises `error`. */
  datatype Outcome<+E> = Pass | Fail(error: E)
}
