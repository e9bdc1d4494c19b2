/** Option and Result values, used for C#'s `null` and for thrown exceptions. */
module Wrappers {

  /** A value that may be absent (C# `null`). */
  datatype Option<+T> = None | Some(value: T)

  /** The outcome of an operation that may fail instead of returning (C# `throw`). */
  datatype Result<+R, +E> = Success(value: R) | Failure(error: E)
}
