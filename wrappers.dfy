/** Failure-carrying values used wherever the source raises or returns None. */
module Wrappers {

  datatype Option<+T> = None | Some(value: T)

  /** A step that either produced a value or raised; the error carries `str(e)`. */
  datatype Result<+T> = Ok(value: T) | Err(error: string)
}
