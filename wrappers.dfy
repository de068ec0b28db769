/** Failure-carrying result types shared by every module of the model. */
module Wrappers {

  /** A value that may be absent (a null pointer, a missing entry). */
  datatype Option<+T> = None | Some(value: T)

  /** The outcome of an operation that may throw: the value, or the error raised. */
  datatype Result<+T, +E> = Ok(value: T) | Err(error: E)
}
