/** Outcome types shared by the whole model: the source reports failures by throwing, the model returns them. */
module Wrappers {

  datatype Option<T> = None | Some(value: T)

  /** The exceptions the modelled Java code throws, named after their classes. */
  datatype Exception =
    | IllegalArgument
    | IllegalState
    | IndexOutOfBounds
    | Fatal
    | Cancelled
    | ParseFailed
    | AssertionFailure
    | ClassCast
    | StackOverflow
    | NullPointer
    | NoSuchElement

  datatype Result<T> = Ok(value: T) | Err(error: Exception)
  {
    predicate IsFailure() { Err? }
    function PropagateFailure<U>(): Result<U> requires Err? { Err(error) }
    function Extract(): T requires Ok? { value }
  }

  /** The outcome of a `void` Java method: it returns normally or throws. */
  datatype Outcome = Pass | Fail(error: Exception)
}
