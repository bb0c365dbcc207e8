/** Error kinds raised by the codec and a failure-compatible result type. */
module Wrappers {

  /** The Python exception classes the modelled code raises. */
  datatype Error = ValueError | IndexError | KeyError | ZeroDivisionError

  datatype Result<+T> = Success(value: T) | Failure(error: Error) {
    predicate IsFailure() { Failure? }

    function PropagateFailure<U>(): Result<U>
      requires Failure?
    {
      Failure(error)
    }

    function Extract(): T
      requires Success?
    {
      value
    }
  }

  datatype Option<+T> = None | Some(value: T)
}
