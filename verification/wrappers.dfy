/** Failure-compatible result types shared by the model's modules. */
module Wrappers {

  /** An optional value. */
  datatype Option<+T> = None | Some(value: T)

  /** Either a computed value or the error that stopped the computation
      (the model's stand-in for a Python exception). */
  datatype Result<+T, +E> = Success(value: T) | Failure(error: E)
}
