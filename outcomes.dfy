/** Value-level stand-ins for the null references and exceptions of the source. */
module Outcomes {

  /** A reference that may be null. */
  datatype Option<+T> = None | Some(value: T)

  /** A normal return, or an exception that escapes the call. */
  datatype Result<+T, +E> = Ok(value: T) | Err(error: E)
}
