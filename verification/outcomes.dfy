/** Failure-carrying wrappers shared by the model: `Option` stands for a
    nullable reference, `Result` for a call that may throw. */
module Outcomes {

  /** A reference that may be null. */
  datatype Option<+T> = None | Some(value: T)

  /** The outcome of an operation that either returns a value or raises. */
  datatype Result<+R, +E> = Success(value: R) | Failure(error: E)
}
