/** Option and Result: the absent value of `indexOf` (-1 in JavaScript) and
    the thrown errors of the seeding script, as ordinary values. */
module Results {

  /** A value that may be missing. */
  datatype Option<T> = None | Some(value: T)

  /** The outcome of an operation that either produces a value or fails
      with an error. */
  datatype Result<T, E> = Ok(value: T) | Err(error: E)
}
