/** The two result types every component shares. */
module Outcomes {

  datatype Option<+T> = None | Some(value: T)

  /** `Result<T, E>`: the source's error strings are modelled by an error datatype per component. */
  datatype Result<+T, +E> = Ok(value: T) | Err(error: E) {
    predicate IsFailure() { Err? }

    function PropagateFailure<U>(): Result<U, E>
      requires Err?
    {
      Err(error)
    }

    function Extract(): T
      requires Ok?
    {
      value
    }
  }
}
