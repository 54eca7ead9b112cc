/** Option and Result: the model's stand-ins for the source's nullable references
    and for operations that either return a value or throw. */
module Wrappers {

  /** A value that may be absent, as a C# reference that may be null. */
  datatype Option<+T> = None | Some(value: T)

  /** Either the value an operation returns, or the error it raises instead. */
  datatype Result<+T, +E> = Success(value: T) | Failure(error: E) {

    /** The same failure, for a result of another value type. */
    function PropagateFailure<U>(): Result<U, E>
      requires Failure?
    {
      Failure(error)
    }
  }
}
