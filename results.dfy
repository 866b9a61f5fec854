/** Option, Result and Outcome: the values the server actions hand back
    instead of throwing for expected business conditions. */
module Results {

  datatype Option<+T> = None | Some(value: T) {
    function GetOr(default: T): T {
      match this
      case Some(v) => v
      case None => default
    }
  }

  /** A value or an error, as in `{ success: true, caseId }` versus `{ error }`. */
  datatype Result<+T, +E> = Ok(value: T) | Err(error: E)

  /** Success without a value, as in `{ success: true }` versus `{ error }`. */
  datatype Outcome<+E> = Pass | Fail(error: E)
}
