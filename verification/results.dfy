/** Failure-compatible result type used for the operations of the game core
    that throw in the original program (popping an empty cache, parsing a
    malformed memento) or yield NaN (parsing a malformed cell key). */
module Results {

  datatype Result<+T> = Ok(value: T) | Err(error: string) {

    predicate IsFailure() {
      Err?
    }

    function PropagateFailure<U>(): Result<U>
      requires Err?
    {
      Err(error)
    }

    function Extract(): T
      requires Ok?
    {
      value
    }
  }
}
