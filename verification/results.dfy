/** Failure-carrying values shared by every lab model.
    `Option` stands for a cell or field that may be empty (an unset variable,
    an empty table cell); `Result` for a handler that either produces a new
    value or refuses with a reason (the source shows an alert and changes nothing). */
module Results {

  datatype Option<+T> = None | Some(value: T) {

    /** The value held, or `default` when there is none. */
    function GetOr(default: T): T {
      match this
      case Some(v) => v
      case None => default
    }
  }

  datatype Result<+T, +E> = Ok(value: T) | Err(error: E)
}
