/** Failure-compatible result types shared by every module of the model. */
module Wrappers {

  /** A value that may be missing; `None` stands for NumPy's `nan`. */
  datatype Option<+T> = None | Some(value: T)

  /** The outcome of an operation that can raise an exception in the program. */
  datatype Result<+T, +E> = Success(value: T) | Failure(error: E) {
    predicate IsFailure() { Failure? }

    function PropagateFailure<U>(): Result<U, E>
      requires Failure?
    {
      Failure(error)
    }

    function Extract(): T
      requires Success?
    {
      value
    }
  }
}
