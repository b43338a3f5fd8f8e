/** Return-value forms of the exceptions the matrix code raises. */
module Wrappers {

  datatype Option<T> = None | Some(value: T)

  /** A value, or the kind of error that stopped its computation. */
  datatype Result<T, E> = Ok(value: T) | Err(error: E)

  /** The outcome of an operation that only changes state: it completed, or it failed with an error. */
  datatype Outcome<E> = Pass | Fail(error: E)
}
