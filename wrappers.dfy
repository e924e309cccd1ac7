/** Failure-carrying values shared by the model: an absent value, a thrown error, a check. */
module Wrappers {

  datatype Option<+T> = None | Some(value: T)

  /** A computation that either returns a value or throws an error. */
  datatype Result<+R, +E> = Success(value: R) | Failure(error: E)

  /** A computation that either completes or throws an error. */
  datatype Outcome<+E> = Pass | Fail(error: E)
}
