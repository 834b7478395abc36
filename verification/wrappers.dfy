/** Option and Result, the failure-carrying datatypes the rest of the model
    uses in place of Java's Optional and thrown exceptions. */
module Wrappers {

  /** A value that may be absent, as returned by the repository finders. */
  datatype Option<+T> = None | Some(value: T)

  /** Either the value an operation produced or the error it failed with. */
  datatype Result<+T, +E> = Ok(value: T) | Err(error: E)
}
