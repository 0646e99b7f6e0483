/** Failure-carrying result types used by the store operations. */
module Wrappers {

  datatype Option<+T> = None | Some(value: T)

  /** A value, or the error the operation raised instead. */
  datatype Result<+T, +E> = Ok(value: T) | Err(error: E)

  /** Completion of an operation that returns nothing: it passed, or it raised `error`. */
  datatype Outcome<+E> = Pass | Fail(error: E)
}
