/** Failure-carrying values used in place of the exceptions the workshop tools raise. */
module Results {

  datatype Option<+T> = None | Some(value: T)

  /** The outcome of a call that either returns `value` or raises `error`. */
  datatype Result<+R, +E> = Success(value: R) | Failure(error: E)
}
