/** Option and Result types shared by the modules of this model. */
module Wrappers {

  /** A value that may be absent. */
  datatype Option<+T> = None | Some(value: T)

  /** The outcome of an operation that may throw: a value, or the message of the exception. */
  datatype Result<+T> = Ok(value: T) | Err(message: string)
}
