/** An optional value: a JSON field that may be absent (or `null`). */
module Options {

  datatype Option<+T> = None | Some(value: T) {

    /** Returns the value held in Some, or `default` for None. */
    function GetOr(default: T): T {
      match this
      case Some(v) => v
      case None => default
    }
  }
}
