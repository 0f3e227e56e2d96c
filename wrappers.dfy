/** Option and Result: the absent values and the thrown errors of the service. */
module Wrappers {

  datatype Option<+T> = None | Some(value: T)

  /** `Failure` stands for a rejected promise or a thrown exception. */
  datatype Result<+R, +E> = Success(value: R) | Failure(error: E)
}
