/** Small wrapper types shared by every module of the model. */
module Base {

  /** Python's `None`-or-value: an absent notification date, a JSON null. */
  datatype Option<+T> = None | Some(value: T)

  /** A computation that either yields a value or raises the given error. */
  datatype Result<+T, +E> = Success(value: T) | Failure(error: E)
}
