/** Optional values and results, used for attribute lookup and for opening the source file. */
module Wrappers {

  /** A value that may be absent: an XML attribute the row does not carry. */
  datatype Option<+T> = None | Some(value: T)

  /** The outcome of an operation that can fail with an error value. */
  datatype Result<+T, +E> = Ok(value: T) | Err(error: E)
}
