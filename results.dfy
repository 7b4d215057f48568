/** Outcomes of the operations: the Python exceptions the modelled code can
    raise become `Err` values instead of preconditions. */
module Results {

  /** The exceptions the core raises on malformed input. */
  datatype Error =
    | KeyError          // a dict lookup of a missing key
    | IndexError        // a list or tuple index past the end
    | ZeroDivisionError // a division by a zero length or count

  datatype Result<+T> = Ok(value: T) | Err(error: Error) {
    predicate IsFailure() {
      Err?
    }

    function PropagateFailure<U>(): Result<U>
      requires Err?
    {
      Err(error)
    }

    function Extract(): T
      requires Ok?
    {
      value
    }
  }

  datatype Option<+T> = None | Some(value: T)
}
