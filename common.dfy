/** Small shared vocabulary: an optional value, used wherever the application
    stores `undefined`, `null` or an empty string that reads as "absent". */
module Common {

  datatype Option<+T> = None | Some(value: T) {

    /** The stored value, or `default` when absent (JavaScript's `x || default`
        for values that are never falsy when present). */
    function GetOr(default: T): T {
      match this
      case Some(v) => v
      case None => default
    }
  }
}
