/** Small failure-carrying datatypes and the user id, shared by every screen model. */
module Wrappers {

  /** A value that may be absent: JavaScript's `null` / `undefined`. */
  datatype Option<T> = None | Some(value: T)

  /** The answer of a remote read: the rows, or the error message the store reported. */
  datatype Result<T> = Ok(value: T) | Err(message: string)

  /** The answer of a remote write, which carries no value. */
  datatype Outcome = Success | Failure(message: string)

  /** The signed-in user's id as the store reports it. */
  type UserId = string
}
