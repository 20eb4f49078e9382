/** Failure-compatible wrappers shared by every module of the model. */
module Results {

  /** A value that may be absent (Go's `(v, ok)` pairs and nil-able results). */
  datatype Option<+T> = None | Some(value: T)

  /** A value or the error that prevented computing it (Go's `(v, err)` pairs). */
  datatype Result<+T, +E> = Ok(value: T) | Err(error: E)
}
