/** Failure-carrying values used for the source's exceptions. */
module Results {

  datatype Option<+T> = None | Some(value: T)

  /** A value or the error a Python call would have raised. */
  datatype Result<+T, +E> = Ok(value: T) | Err(error: E)

  /** A call that returns nothing but may raise. */
  datatype Outcome<+E> = Pass | Fail(error: E)
}
