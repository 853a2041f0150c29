/** Absence and failure, as the board's operations report them. */
module Common {

  /** `null` versus a value. */
  datatype Option<+T> = None | Some(value: T)

  /** A value, or the error an operation raised instead of returning. */
  datatype Result<+T, +E> = Success(value: T) | Failure(error: E)

  /** The author shown for every post: the board is anonymous. */
  const Anonymous: string := "Anonymous Iskolar"
}
