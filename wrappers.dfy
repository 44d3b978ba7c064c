/** A null cell and the outcome of a run. */
module Wrappers {

  /** A value that may be missing: a null cell of a table. */
  datatype Option<+T> = None | Some(value: T)

  /** The outcome of running the whole script: the two result tables, or the error it stops with. */
  datatype Result<+R, +E> = Success(value: R) | Failure(error: E)
}
