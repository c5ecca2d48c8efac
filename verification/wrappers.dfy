/** Failure-compatible wrappers shared by the other modules. */
module Wrappers {

  datatype Option<+T> = None | Some(value: T)

  /** The value of a computation, or the error the source would raise. */
  datatype Result<+R, +E> = Success(value: R) | Failure(error: E)
}
