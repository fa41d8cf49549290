/** The Option and Result datatypes the model uses for absent values and raised errors. */
module Wrappers {

  /** `None` stands for Python's `-float("inf")` "unset" score sentinel. */
  datatype Option<+T> = None | Some(value: T)

  /** The outcome of an operation that can raise in the source. */
  datatype Result<+R, +E> = Success(value: R) | Failure(error: E)
}
