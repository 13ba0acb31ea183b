/** The outcome types shared by every module: optional values and failures carried as data. */
module Results {

  datatype Option<+T> = None | Some(value: T)

  /** The original's exceptions and error returns. */
  datatype Result<+T, +E> = Ok(value: T) | Err(error: E) {
    predicate IsFailure() {
      Err?
    }

    function PropagateFailure<U>(): Result<U, E>
      requires Err?
    {
      Err(error)
    }

    function Extract(): T
      requires Ok?
    {
      value
    }
  }
}
