/** The optional-value and success-or-error types shared by every module of the model. */
module Wrappers {

  /** A value that may be absent: JavaScript's `undefined`/`null`, a missing
      query parameter or storage key, a record that a lookup did not find. */
  datatype Option<T> = None | Some(value: T)

  /** The outcome of an operation that either produces a value or fails. */
  datatype Result<T, E> = Ok(value: T) | Err(error: E)
}
