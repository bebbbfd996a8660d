/**
 * Failure-carrying values shared by the whole model.
 *
 * PHP signals the grid's error conditions by throwing; the model returns them
 * as `Err` values instead, one constructor per exception class the source
 * throws.
 */
module Outcomes {

  /** A value that may be absent (PHP `null`). */
  datatype Option<+T> = None | Some(value: T)

  /** The exception classes thrown by the grid, with their messages. */
  datatype Error =
    | InvalidArgument(message: string)   // InvalidArgumentException
    | LogicError(message: string)        // LogicException

  /** Either a value or the exception the source would throw instead. */
  datatype Result<+T> = Ok(value: T) | Err(error: Error) {

    predicate IsFailure() {
      Err?
    }

    function PropagateFailure<U>(): Result<U>
      requires Err?
    {
      Err(error)
    }

    function Extract(): T
      requires Ok?
    {
      value
    }
  }
}
