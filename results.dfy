/** Option and Result wrappers shared by the model: an optional argument and
    the outcome of a call that may raise. */
module Results {

  /** A Python argument that may be left as `None`. */
  datatype Option<+T> = None | Some(value: T)

  /** A value, or the exception raised instead of producing it. */
  datatype Result<+T, +E> = Ok(value: T) | Err(error: E)
}
