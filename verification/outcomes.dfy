/** Failure-carrying result types shared by the pointer model and the simplifier. */
module Outcomes {

  /** "No replacement" (the source's NULL return) or a replacement value. */
  datatype Option<+T> = None | Some(value: T)

  /** Why an operation did not produce a value. */
  datatype Error =
    | AssertionFailed      // an internal-consistency assert() of the source fires: fatal abort
    | UndefinedBehaviour   // the source reads a layout through a cast to the wrong type

  datatype Result<+T> = Success(value: T) | Failure(error: Error)

  /** The handle a caller keeps after a simplification: the replacement, or the original. */
  function OrElse<T>(o: Option<T>, original: T): T
  {
    match o
    case None => original
    case Some(v) => v
  }
}
