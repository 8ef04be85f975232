/** Java's `null`, thrown exceptions and void-or-throw results, as values. */
module Wrappers {

  /** A reference that may be `null`. */
  datatype Option<+T> = None | Some(value: T)

  /** A value, or the message of the exception thrown instead. */
  datatype Result<+T> = Success(value: T) | Failure(error: string)

  /** A call that returns normally, or throws with a message. */
  datatype Outcome = Pass | Fail(error: string)
}
