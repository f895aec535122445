/** Optional values: JavaScript's `undefined` for an absent field or argument. */
module Common {

  datatype Option<+T> = None | Some(value: T) {

    /** The value, or `default` when absent (the `x || default` idiom for non-falsy values). */
    function GetOr(default: T): T {
      match this
      case Some(v) => v
      case None => default
    }
  }

  /** JavaScript truthiness of an optional string: present and not "". */
  predicate Truthy(s: Option<string>) {
    s.Some? && s.value != ""
  }
}
