/** Option and Result types shared by the note-store modules. */
module Results {

  /** A value that may be missing, as a row lookup that finds nothing. */
  datatype Option<+T> = None | Some(value: T)

  /** Either a computed value or the error that stopped the computation. */
  datatype Result<+T, +E> = Success(value: T) | Failure(error: E)
}
