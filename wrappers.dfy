/** Failure-carrying result types shared by every module of the model. */
module Wrappers {

  datatype Option<+T> = None | Some(value: T)

  /** The outcome of an operation that either produces a value or reports an error
      (a thrown exception or an `std::error_code` in the modelled code). */
  datatype Result<+T, +E> = Ok(value: T) | Err(error: E)
}
