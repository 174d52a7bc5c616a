/** Option stands for a nullable reference; Result for FluentResults' Result<T>. */
module Wrappers {

  datatype Option<+T> = None | Some(value: T)

  /** A failure carries its list of reasons, as FluentResults' Errors do. */
  datatype Result<+R, +E> = Success(value: R) | Failure(error: E)
}
