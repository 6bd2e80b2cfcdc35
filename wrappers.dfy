/** Option and Result, the two failure-carrying datatypes the model needs. */
module Wrappers {

  /** A value that may be missing (a blank spreadsheet cell after projection). */
  datatype Option<+T> = None | Some(value: T)

  /** The outcome of an operation that may fail with an error of type E. */
  datatype Result<+R, +E> = Success(value: R) | Failure(error: E)
}
