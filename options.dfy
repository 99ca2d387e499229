/** A value that may be absent: the model's stand-in for a missing (NaN) table cell. */
module Options {

  datatype Option<+T> = None | Some(value: T) {

    /** The value, or `default` when it is absent (a single-cell `fillna`). */
    function GetOr(default: T): T {
      match this
      case Some(v) => v
      case None => default
    }
  }
}
