// Option and Result values used by the rest of the model.
module Wrappers {

  datatype Option<+T> = None | Some(value: T)

  /** The outcome of an operation of the source that can throw: the value, or the message of the exception. */
  datatype Result<+T> = Ok(value: T) | Err(message: string)
}
