/** Failure-carrying values used where the modelled C# code throws. */
module Wrappers {

  datatype Option<+T> = None | Some(value: T)

  /** A value, or the exception that replaced it. */
  datatype Result<+R, +E> = Success(value: R) | Failure(error: E)

  /** Completion of an action that returns nothing, or the exception it threw. */
  datatype Outcome<+E> = Pass | Fail(error: E)
}
