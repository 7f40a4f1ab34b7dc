/** Option and Result, shared by the scheduler and the sorting kernels. */
module Wrappers {

  /** A value that may be absent: Python's `None` sentinel. */
  datatype Option<+T> = None | Some(value: T)

  /** A value or a raised error. */
  datatype Result<+R, +E> = Success(value: R) | Failure(error: E)
}
