/** Failure-carrying datatypes shared by the models. */
module Wrappers {

  /** A value that may be absent (Python `None`, Java `null`). */
  datatype Option<+T> = None | Some(value: T)

  /** A value or the exception raised instead of producing it. */
  datatype Result<+T, +E> = Ok(value: T) | Err(error: E)

  /** Completion without a value, or the exception that stopped it. */
  datatype Outcome<+E> = Pass | Fail(error: E)
}
