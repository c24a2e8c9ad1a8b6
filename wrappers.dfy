/** Option, Result and Outcome values for the error paths of the session code. */
module Wrappers {

  datatype Option<+T> = None | Some(value: T)

  /** The Rust `Result<T, E>` returned by an I/O call. */
  datatype Result<+T, +E> = Success(value: T) | Failure(error: E)

  /** A `Result<(), E>`: a call that returns nothing on success. */
  datatype Outcome<+E> = Pass | Fail(error: E)

  function Min(a: int, b: int): int
  {
    if a <= b then a else b
  }
}
