/** Failure-carrying datatypes shared by the other modules. */
module Wrappers {

  /** An optional value; a table cell uses `None` for pandas' NaN. */
  datatype Option<+T> = None | Some(value: T)

  /** The outcome of an operation that can raise. */
  datatype Result<+T, +E> = Ok(value: T) | Err(error: E)
}
