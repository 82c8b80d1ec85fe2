/** Optional values, and the "is set" test the booking job applies to its
    string settings (an environment variable or a returned token counts as
    set only when it is present and non-empty). */
module Options {

  datatype Option<+T> = None | Some(value: T) {

    /** The encapsulated value, or `default` when there is none. */
    function GetOr(default: T): T {
      match this
      case Some(v) => v
      case None => default
    }
  }

  /** A string setting is set when it is present and not the empty string. */
  predicate IsSet(s: Option<string>) {
    s.Some? && s.value != ""
  }
}
