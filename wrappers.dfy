/** Failure-compatible result types shared by the modules of this model. */
module Wrappers {

  /** Python's `Optional[...]`: a value or `None`. */
  datatype Option<+T> = None | Some(value: T)

  /** The outcome of an operation that raises in the source: a value or the error raised. */
  datatype Result<+T, +E> = Success(value: T) | Failure(error: E) {
    predicate IsFailure() { Failure? }

    function PropagateFailure<U>(): Result<U, E>
      requires Failure?
    {
      Failure(error)
    }

    function Extract(): T
      requires Success?
    {
      value
    }
  }
}
