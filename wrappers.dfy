/** Failure-compatible wrappers shared by the model. */
module Wrappers {

  /** A value that may be missing; used for Java's nullable references and sentinels. */
  datatype Option<T> = None | Some(value: T)

  /** The outcome of an operation that can throw: a value, or the exception's message. */
  datatype Result<T, E> = Success(value: T) | Failure(error: E)
}
