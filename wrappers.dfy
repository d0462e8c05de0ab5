/** Failure-carrying values used in place of Java's null returns and exceptions. */
module Wrappers {

  /** A value that may be absent: stands for a nullable Java reference. */
  datatype Option<T> = None | Some(value: T)

  /** The outcome of an operation that returns nothing on success (a Java `void` method that may throw). */
  datatype Outcome<E> = Pass | Fail(error: E)

  /** The outcome of an operation that produces a value on success (a Java constructor that may throw). */
  datatype Result<T, E> = Success(value: T) | Failure(error: E)
}
