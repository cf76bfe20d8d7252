/** Values that may be absent, and results that may be errors. */
module Options {
  datatype Option<+T> = None | Some(value: T)

  /** A value, or the error the source throws. */
  datatype Result<+T, +E> = Success(value: T) | Failure(error: E)
}
