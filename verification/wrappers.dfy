/** Failure-carrying datatypes shared by the parsers. */
module Wrappers {

  /** A value that may be absent, like a Python `None`-able field or an
      optional regex group that did not take part in a match. */
  datatype Option<+T> = None | Some(value: T)

  /** The outcome of an operation that either returns a value or raises. */
  datatype Result<+T, +E> = Ok(value: T) | Err(error: E)
}
