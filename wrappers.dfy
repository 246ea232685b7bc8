/** Option and Result, used for missing cells and for the errors pandas raises. */
module Wrappers {

  /** A value that may be absent: a missing (NaN) cell is `None`. */
  datatype Option<+T> = None | Some(value: T)

  /** The outcome of an operation that may raise. */
  datatype Result<+R, +E> = Success(value: R) | Failure(error: E)
}
