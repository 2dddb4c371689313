/** Option, Result and Outcome: how the model writes Java's nulls and its exceptions. */
module Wrappers {

  /** A possibly-null Java reference: None stands for null. */
  datatype Option<+T> = None | Some(value: T) {
    /** Optional.orElse */
    function GetOr(default: T): T {
      if Some? then value else default
    }
  }

  /** A value, or the exception that was raised instead of producing it. */
  datatype Result<+T, +E> = Success(value: T) | Failure(error: E)

  /** A check that either passes or raises an exception. */
  datatype Outcome<+E> = Pass | Fail(error: E)
}
