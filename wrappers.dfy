/** The optional value and the failure-carrying result used across the model. */
module Wrappers {

  /** A field the request may leave out (Python's `Optional[str] = None`). */
  datatype Option<+T> = None | Some(value: T)

  /** An operation that either yields a value or fails with an error. */
  datatype Result<+T, +E> = Ok(value: T) | Err(error: E)
}
