/** Failure-carrying wrappers shared by every module of the model. */
module Wrappers {

  /** Python's `None` or a present value. */
  datatype Option<+T> = None | Some(value: T)

  /** A computation that either produced a value or raised an error described by a message. */
  datatype Result<+T> = Ok(value: T) | Err(message: string)
}
