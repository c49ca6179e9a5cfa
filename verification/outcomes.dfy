/** Explicit outcomes for the source's silent fall-throughs and catch-all error returns. */
module Outcomes {

  /** A value that may be absent (pandas NaN / NaT, a missing column). */
  datatype Option<+T> = None | Some(value: T)

  /** A value or the reason it could not be produced. */
  datatype Result<+T, +E> = Success(value: T) | Failure(error: E)
}
