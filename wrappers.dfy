/** Option and Result values used throughout the model. */
module Wrappers {

  /** A value that may be missing: a null cell, an unparseable date, no missing column. */
  datatype Option<+T> = None | Some(value: T)

  /** The outcome of a step that can raise: its value, or the error it raises. */
  datatype Result<+T, +E> = Success(value: T) | Failure(error: E)
}
