/** Optional values and results shared by the model. */
module Wrappers {

  /** A value that may be absent. */
  datatype Option<+T> = None | Some(value: T)

  /** Either a value or the error that a Python exception would signal. */
  datatype Result<+T, +E> = Ok(value: T) | Err(error: E)
}
