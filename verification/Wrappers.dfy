/** Failure-compatible results shared by every kernel. */
module Wrappers {

  /** The source's `Option<T>`. */
  datatype Option<+T> = None | Some(value: T)

  /** The source's `Result<T, E>`. */
  datatype Result<+T, +E> = Ok(value: T) | Err(error: E) {

    predicate IsFailure() {
      Err?
    }

    function PropagateFailure<U>(): Result<U, E>
      requires Err?
    {
      Err(error)
    }

    function Extract(): T
      requires Ok?
    {
      value
    }
  }
}
