/** Optional values and failure-carrying results, standing in for Java's
    null / Optional and for thrown exceptions. */
module Wrappers {

  /** An optional value: `None` plays the role of Java's `null` or of an empty `Optional`. */
  datatype Option<+T> = None | Some(value: T) {
    function GetOr(default: T): T {
      match this
      case Some(v) => v
      case None => default
    }
  }

  /** The outcome of an operation that may throw: `Failure` carries the exception. */
  datatype Result<+T, +E> = Success(value: T) | Failure(error: E)

  /** The outcome of an operation without a return value that may throw. */
  datatype Outcome<+E> = Pass | Fail(error: E)

  /** The name of the exception a dereference of `null` throws, where the error is a name. */
  const NullPointer: string := "NullPointerException"
}
