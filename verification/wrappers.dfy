/** Failure-carrying wrappers shared by the modules of this model. */
module Wrappers {

  /** A value that may be absent (a null pointer, a missing map entry). */
  datatype Option<+T> = None | Some(value: T)

  /** The outcome of an operation that can fail with a reason. */
  datatype Result<+T, +E> = Ok(value: T) | Err(error: E)
}
