/** Failure-compatible result types shared by the model, and the Python
    exception kinds the modelled scripts can raise. */
module Wrappers {

  datatype Option<+T> = None | Some(value: T)

  /** The outcome of an operation that either yields a value or raises. */
  datatype Result<+T, +E> = Ok(value: T) | Err(error: E) {
    predicate IsFailure() { Err? }

    function PropagateFailure<U>(): Result<U, E>
      requires Err?
    {
      Err(error)
    }

    function Extract(): T
      requires Ok?
    {
      value
    }
  }

  /** The exceptions the modelled code raises: a missing dictionary or data
      frame key, an index past the end of a list or array, and a value of the
      wrong shape or form (an unparsable integer, a missing structured-array
      field, a data frame built with the wrong number of columns). */
  datatype Exception = KeyError | IndexError | ValueError
}
