/** Failure-compatible result types used in place of the exceptions the field type raises. */
module Wrappers {

  datatype Option<+T> = None | Some(value: T)

  /** Either a value or the error that was raised instead of producing it. */
  datatype Result<+T, +E> = Ok(value: T) | Err(error: E) {

    predicate IsFailure() {
      Err?
    }

    function PropagateFailure<U>(): Result<U, E>
      requires Err?
    {
      Err(error)
    }

    function Extract(): T
      requires Ok?
    {
      value
    }
  }
}
