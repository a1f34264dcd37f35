/** Failure-carrying return types shared by the codec and the contract model. */
module Wrappers {

  /** A value that may be absent. */
  datatype Option<+T> = None | Some(value: T)

  /** Either a computed value or the error that stopped the computation. */
  datatype Result<+T, +E> = Success(value: T) | Failure(error: E)
}
