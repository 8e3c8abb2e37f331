/** The Option and Result datatypes used throughout the model. */
module Wrappers {

  /** A value that may be missing: a null cell, a column that was not found. */
  datatype Option<+T> = None | Some(value: T)

  /** The outcome of an operation that raises in the source. */
  datatype Result<+R, +E> = Success(value: R) | Failure(error: E)
}
