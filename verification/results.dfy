/** Failure-compatible wrappers used throughout the model.
    `Option` stands for a Java reference that may be null, `Result` for a
    computation that either yields a value or throws. */
module Results {

  /** A Java reference that may be null. */
  datatype Option<+T> = None | Some(value: T)

  /** A value, or the exception that was raised instead of it. */
  datatype Result<+T, +E> = Ok(value: T) | Err(error: E) {

    predicate IsFailure() {
      Err?
    }

    function PropagateFailure<U>(): Result<U, E>
      requires Err?
    {
      Err(error)
    }

    function Extract(): T
      requires Ok?
    {
      value
    }
  }

  /** The outcome of a call made only for its effect. */
  datatype Outcome<+E> = Pass | Fail(error: E)
}
