/** Failure-carrying result types shared by every check of the audit. */
module Wrappers {

  /** A value that may be absent, e.g. a decimal string that does not parse. */
  datatype Option<+T> = None | Some(value: T)

  /** A computed value, or the reason it could not be computed. */
  datatype Result<+T, +E> = Ok(value: T) | Err(error: E)

  /** The verdict of one check: it passed, or it failed for a reason. */
  datatype Outcome<+E> = Pass | Fail(error: E)
}
