/** Optional values and results with an error, used for C#'s nullable values and exceptions. */
module Wrappers {

  /** A value that may be absent: C#'s `null` string and `ColorRGB32Bit?` are `None`. */
  datatype Option<+T> = None | Some(value: T)

  /** The outcome of an operation that throws on failure: `Failure` carries the exception. */
  datatype Result<+T, +E> = Success(value: T) | Failure(error: E)
}
