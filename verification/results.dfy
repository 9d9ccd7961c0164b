/** Optional values and success-or-error results shared by the whole model. */
module Results {

  /** A value that may be absent: a table cell that was never created, a name
      that is not in the bank index. */
  datatype Option<+T> = None | Some(value: T)

  /** The outcome of a step that can abort with an error. */
  datatype Result<+T, +E> = Success(value: T) | Failure(error: E)
}
