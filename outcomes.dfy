/** Outcomes of the modelled operations: a value, or the exception the code raises. */
module Outcomes {

  /** Python's `x if present else None` for optional parameters (`int | None`, `str | None`). */
  datatype Option<+T> = None | Some(value: T)

  /** The exception classes raised by the modelled code, with their messages. */
  datatype Error =
    | ValueError(message: string)
    | TypeError(message: string)
    | OverflowError(message: string)

  /** Either the returned value or the raised exception. */
  datatype Result<+T> = Success(value: T) | Failure(error: Error) {
    predicate IsFailure() {
      Failure?
    }

    function PropagateFailure<U>(): Result<U>
      requires Failure?
    {
      Failure(error)
    }

    function Extract(): T
      requires Success?
    {
      value
    }
  }
}
