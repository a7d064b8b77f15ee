/** `Option` and `Result`, shared by the server-side and client-side models. */
module Wrappers {

  /** A value that may be missing: an unset PHP key or an undefined JS attribute. */
  datatype Option<+T> = None | Some(value: T)

  /** The outcome of an operation that can fail with an error value. */
  datatype Result<+R, +E> = Success(value: R) | Failure(error: E)
}
