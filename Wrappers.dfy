/** Option and Result, the failure-carrying values the rest of the model returns. */
module Wrappers {

  datatype Option<+T> = None | Some(value: T)

  /** An operation that either produces a value or raises one of the source's exceptions. */
  datatype Result<+R, +E> = Success(value: R) | Failure(error: E)
}
