/** The value-or-error shapes used throughout: `Option` for the source's
    `undefined`, `Result` for a value or a thrown error message. */
module Results {

  datatype Option<+T> = None | Some(value: T) {
    function GetOr(default: T): T {
      match this
      case Some(v) => v
      case None => default
    }
  }

  /** A computed value, or the message the source throws or returns as its
      error. */
  datatype Result<+T> = Success(value: T) | Failure(error: string)
}
