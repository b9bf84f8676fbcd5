/** Failure-carrying values shared by the modules of the model. */
module Wrappers {

  /** A value that may be absent, used for parses that can fail. */
  datatype Option<+T> = None | Some(value: T)

  /** A value or the exception that replaced it. */
  datatype Result<+T, +E> = Ok(value: T) | Err(error: E)
}
