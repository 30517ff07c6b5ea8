/** Option and Result, the failure-carrying values shared by the other modules. */
module Wrappers {

  /** An optional value: a Python `None`, or a TypeScript field that is absent. */
  datatype Option<+T> = None | Some(value: T)

  /** The outcome of an operation that may stop with an error. */
  datatype Result<+R, +E> = Success(value: R) | Failure(error: E)
}
