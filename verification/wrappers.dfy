/** Failure-carrying datatypes shared by the model. */
module Wrappers {

  /** An optional value: configuration fields that may be absent. */
  datatype Option<+T> = None | Some(value: T)

  /** A value or an error: how a promise that resolves with a value settles. */
  datatype Result<+T, +E> = Success(value: T) | Failure(error: E)

  /** Success without a value, or an error: how a promise that resolves
      with nothing settles. */
  datatype Outcome<+E> = Pass | Fail(error: E)
}
