/** An optional value: a pandas cell that may be missing (NaN), a file that
    may not exist. */
module Options {
  datatype Option<T> = None | Some(value: T) {
    /** The value, or `default` when missing (pandas `fillna`). */
    function GetOr(default: T): T {
      match this
      case Some(v) => v
      case None => default
    }
  }
}
