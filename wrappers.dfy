/** Option and Result: the model's stand-ins for Python's None and for exceptions. */
module Wrappers {

  datatype Option<+T> = None | Some(value: T)

  /** The outcome of a call that may raise: its value, or the exception's message. */
  datatype Result<+T> = Ok(value: T) | Err(message: string)
}
