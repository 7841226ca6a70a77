/** Small failure-carrying datatypes shared by the modules of this model. */
module Wrappers {

  /** A value that may be missing (Python's `None`). */
  datatype Option<+T> = None | Some(value: T)

  /** A value, or the error a call raised instead. */
  datatype Result<+T, +E> = Ok(value: T) | Err(error: E)
}
