/** Failure-carrying datatypes shared by every module of the model:
    `Option` for JavaScript's `undefined`-or-value, `Result` for a value
    or a thrown error. */
module Wrappers {

  datatype Option<+T> = None | Some(value: T) {
    predicate IsFailure() { None? }

    function PropagateFailure<U>(): Option<U>
      requires None?
    {
      None
    }

    function Extract(): T
      requires Some?
    {
      value
    }
  }

  /** The kinds of exception the modelled code throws. */
  datatype Error =
    | TypeError(message: string)
    | PlainError(message: string)

  datatype Result<+R> = Ok(value: R) | Err(error: Error) {
    predicate IsFailure() { Err? }

    function PropagateFailure<U>(): Result<U>
      requires Err?
    {
      Err(error)
    }

    function Extract(): R
      requires Ok?
    {
      value
    }
  }
}
