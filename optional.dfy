/** An optional value: a JSON field or a dictionary entry that may be absent,
    or Python's `None` as a result. */
module Optional {

  datatype Option<T> = None | Some(value: T) {

    /** The value, or `default` when absent (Python's `d.get(key, default)`). */
    function GetOr(default: T): T
    {
      match this
      case Some(v) => v
      case None => default
    }
  }
}
