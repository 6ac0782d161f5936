/** Failure-carrying values shared by every module of the model. */
module Results {

  /** A value that may be absent: JavaScript's `undefined` / `null` results. */
  datatype Option<+T> = None | Some(value: T)

  /**
   * The outcome of an operation that may throw. The model does not distinguish
   * the kind of exception (a TypeError, a ReferenceError or a thrown Error).
   */
  datatype Result<+T> = Success(value: T) | Failure
}
