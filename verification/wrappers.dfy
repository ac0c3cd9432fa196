/** Failure-carrying values shared by the store and the account operations. */
module Wrappers {

  /** A value that may be absent: an unparseable line, an amount that is not a number. */
  datatype Option<+T> = None | Some(value: T)

  /** The outcome of an operation: its result, or the error the console reports. */
  datatype Result<+T, +E> = Ok(value: T) | Err(error: E)
}
