/** Optional values and results with an error, shared by the other modules. */
module Wrappers {
  datatype Option<+T> = None | Some(value: T)

  /** `:-` propagates the error. */
  datatype Outcome<+T, +E> = Ok(value: T) | Err(error: E) {
    predicate IsFailure() {
      Err?
    }

    function PropagateFailure<U>(): Outcome<U, E>
      requires Err?
    {
      Err(error)
    }

    function Extract(): T
      requires Ok?
    {
      value
    }
  }
}
