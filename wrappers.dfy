/** Result types shared by the modules of the model. */
module Wrappers {

  /** A value that may be missing (Python's `None` or a value). */
  datatype Option<+T> = None | Some(value: T)

  /** The outcome of an operation that may raise an exception. */
  datatype Result<+T, +E> = Ok(value: T) | Err(error: E)
}
