// Option, Result and Outcome: the shapes every module uses for the
// source's `Option<T>`, `Result<T, E>` and `Result<(), E>`.
module Wrappers {

  datatype Option<T> = None | Some(value: T)

  datatype Result<T, E> = Ok(value: T) | Err(error: E)

  /** A `Result<(), E>`: success carries nothing. */
  datatype Outcome<E> = Pass | Fail(error: E)
}
