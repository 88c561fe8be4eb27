/** Option and Result, for values that may be missing and operations that may raise. */
module Wrappers {

  datatype Option<+T> = None | Some(value: T)

  /** `Failure` carries what the operation raised on. */
  datatype Result<+R, +E> = Success(value: R) | Failure(error: E)
}
