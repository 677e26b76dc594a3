/** Option and Result, the two failure-carrying shapes the engine needs. */
module Wrappers {

  /** A value that may be absent, like Rust's `Option`. */
  datatype Option<+T> = None | Some(value: T)

  /** Either a value or an error, used for every operation that can panic. */
  datatype Result<+R, +E> = Success(value: R) | Failure(error: E)
}
