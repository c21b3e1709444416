/** The Option and Result datatypes used across the model. */
module Wrappers {

  /** Java's nullable references and JavaScript's undefined: a value or nothing. */
  datatype Option<+T> = None | Some(value: T)

  /** A value or an error, for operations of the source that throw. */
  datatype Result<+T, +E> = Success(value: T) | Failure(error: E)
}
