/** Failure-carrying datatypes shared by the receipt model. */
module Wrappers {

  /** A value that may be absent; a spreadsheet cell is an `Option<string>`. */
  datatype Option<+T> = None | Some(value: T)

  /** The outcome of an operation that may raise. */
  datatype Result<+R, +E> = Success(value: R) | Failure(error: E)
}
