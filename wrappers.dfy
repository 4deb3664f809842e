/** Failure-carrying results shared by every module of the model. */
module Wrappers {

  /** A value or its absence (Python's `None`). */
  datatype Option<+T> = None | Some(value: T)

  /** A value or the error the source raises instead of returning one. */
  datatype Result<+T, +E> = Ok(value: T) | Err(error: E)
}
