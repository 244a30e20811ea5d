/** Failure-compatible wrappers shared by the modules of the weather scraper model. */
module Wrappers {

  /** A value that may be absent: pandas' missing value, a regex search with no match. */
  datatype Option<+T> = None | Some(value: T)

  /** The outcome of an operation that raises an exception in the Python script. */
  datatype Result<+T, +E> = Success(value: T) | Failure(error: E)
}
