/** Failure-compatible wrappers used wherever the script aborts or may have a nil value. */
module Wrappers {

  /** A value that may be absent: Ruby's nil versus a present value. */
  datatype Option<+T> = None | Some(value: T)

  /** A computed value or the reason the computation stopped. */
  datatype Result<+R, +E> = Success(value: R) | Failure(error: E)

  /** Success without a value, or the reason of a failure. */
  datatype Outcome<+E> = Pass | Fail(error: E)
}
