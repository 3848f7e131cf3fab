/** Outcome types shared by the model: an optional value, and a value-or-error
    that supports Dafny's `:-` propagation. They stand in for the source's
    `None` results and for the exceptions that end a script. */
module Results {

  datatype Option<+T> = None | Some(value: T)

  datatype Result<+T, +E> = Ok(value: T) | Err(error: E) {

    predicate IsFailure() {
      Err?
    }

    function PropagateFailure<U>(): Result<U, E>
      requires Err?
    {
      Err(error)
    }

    function Extract(): T
      requires Ok?
    {
      value
    }
  }
}
