/** Failure-compatible result types shared by every module of the model. */
module Wrappers {

  /** A value that may be absent: the model's stand-in for a C# null reference. */
  datatype Option<+T> = None | Some(value: T)

  /** Either a computed value or the exception the C# code would throw instead. */
  datatype Result<+R, +E> = Success(value: R) | Failure(error: E)
}
