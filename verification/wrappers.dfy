/** Failure-carrying result types shared by the journal model. */
module Wrappers {

  /** A value that may be absent: a nullable column or an omitted query parameter. */
  datatype Option<+T> = None | Some(value: T)

  /** The outcome of an endpoint: its response value, or the HTTP error it raises. */
  datatype Result<+T, +E> = Ok(value: T) | Err(error: E)
}
