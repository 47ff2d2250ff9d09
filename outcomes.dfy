/**
 * Carriers for Java's null references and for InvalidSetException.
 * An operation that throws returns Failure(message); the message is the
 * exception's detail message, which is all the core ever puts in it.
 */
module Outcomes {

  /** A Java reference that may be null. */
  datatype Option<+T> = None | Some(value: T)

  /** The return value of a method that either returns or throws with a message. */
  datatype Result<+T> = Success(value: T) | Failure(message: string)

  /** The outcome of a void method that may throw with a message. */
  datatype Outcome = Pass | Fail(message: string)
}
