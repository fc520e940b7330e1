/** Option and Result values used for the lookups and the error returns of the backend. */
module Outcomes {

  /** A value that may be missing (Python's `None`, a nullable column). */
  datatype Option<+T> = None | Some(value: T)

  /** Either a value or the error an endpoint raises instead of returning. */
  datatype Result<+T, +E> = Ok(value: T) | Err(error: E)
}
