/** Result type standing in for the exceptions the solver raises and catches. */
module Wrappers {

  /** Either a value, or the reason the computation raised instead. */
  datatype Result<T, E> = Success(value: T) | Failure(error: E)
}
