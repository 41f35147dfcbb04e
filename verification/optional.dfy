/** The Python `None`-or-value idiom used by the scripts' dictionaries
    (`item.get("text")`, a content type that may be missing). */
module Optional {

  datatype Option<+T> = None | Some(value: T) {

    /** Python's `x or default` for a value that is either missing or present. */
    function GetOr(default: T): T {
      match this
      case Some(v) => v
      case None => default
    }
  }
}
