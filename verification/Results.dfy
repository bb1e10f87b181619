/** Failure-compatible results shared by every model of this project. */
module Results {

  datatype Option<+T> = None | Some(value: T)

  /** What the source returns or throws: a value, or a typed refusal. */
  datatype Result<+T, +E> = Ok(value: T) | Err(error: E) {
    predicate IsFailure() {
      Err?
    }

    function PropagateFailure<U>(): Result<U, E>
      requires Err?
    {
      Err(error)
    }

    function Extract(): T
      requires Ok?
    {
      value
    }
  }
}
