/** The two outcome types of the decoder. A `Maybe` is a buffer view that
    may be out of range; an `Outcome` is a decoding step that either yields a
    value or stops with an error. Both can be chained with `:-`, which
    stops at the first missing view or error. */
module Results {

  datatype Maybe<+T> = Nothing | Just(value: T) {

    predicate IsFailure() {
      Nothing?
    }

    function PropagateFailure<U>(): Maybe<U>
      requires Nothing?
    {
      Nothing
    }

    function Extract(): T
      requires Just?
    {
      value
    }

    /** A view that is out of range stops decoding with `err`. */
    function OrError<E>(err: E): Outcome<T, E> {
      if Just? then Ok(value) else Err(err)
    }
  }

  datatype Outcome<+T, +E> = Ok(value: T) | Err(error: E) {

    predicate IsFailure() {
      Err?
    }

    function PropagateFailure<U>(): Outcome<U, E>
      requires Err?
    {
      Err(error)
    }

    function Extract(): T
      requires Ok?
    {
      value
    }
  }
}
