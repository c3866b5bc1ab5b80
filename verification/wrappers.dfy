/** Failure-carrying datatypes shared by the other modules. */
module Wrappers {

  /** An optional value: Python's `None` versus a present value. */
  datatype Option<+T> = None | Some(value: T)

  /** The outcome of an operation that raises in the original program. */
  datatype Result<+R, +E> = Success(value: R) | Failure(error: E)
}
