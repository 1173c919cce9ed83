/** Failure-carrying datatypes shared by the rest of the model. */
module Wrappers {

  /** An optional value: a regex match end, a missing upload, ... */
  datatype Option<+T> = None | Some(value: T)

  /** The value of a computation that may raise; `Failure` carries the message. */
  datatype Result<+T> = Success(value: T) | Failure(message: string)
}
