/** Failure-carrying result types shared by the whole model. The source signals
    failure by throwing an Error whose message is a string; the model returns it. */
module Wrappers {

  datatype Option<+T> = None | Some(value: T)

  /** A value or the message of the Error the source would throw. */
  datatype Result<+T> = Ok(value: T) | Err(message: string)

  /** Success without a value, or the message of the Error the source would throw. */
  datatype Outcome = Pass | Fail(message: string)
}
