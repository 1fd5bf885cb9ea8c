/** Failure-carrying datatypes shared by the model. */
module Wrappers {

  /** A value that may be missing: a JSON field that is `undefined`, or an SQL NULL. */
  datatype Option<+T> = None | Some(value: T)

  /** Either a payload or an error message. */
  datatype Result<+R, +E> = Success(value: R) | Failure(error: E)

  /** Success without a payload, or an error message. */
  datatype Outcome<+E> = Pass | Fail(error: E)
}
