/** Failure-compatible result types shared by the model. */
module Wrappers {

  datatype Option<+T> = None | Some(value: T)

  /** The one failure the engine can meet: the name synthesizer gave up
      after its bounded number of attempts. */
  datatype Outcome<+T> = Ok(value: T) | NamesExhausted {

    predicate IsFailure() {
      NamesExhausted?
    }

    function PropagateFailure<U>(): Outcome<U>
      requires NamesExhausted?
    {
      NamesExhausted
    }

    function Extract(): T
      requires Ok?
    {
      value
    }
  }
}
