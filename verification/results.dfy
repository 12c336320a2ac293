/** Failure-carrying values for the parts of the program that can raise. */
module Results {

  /** The value a computation yields, or `None` when it would raise. */
  datatype Option<+T> = Some(value: T) | None

  /** A value, or the error the computation raises instead. */
  datatype Result<+T, +E> = Ok(value: T) | Err(error: E)
}
