/** A JavaScript value that may be `undefined`. */
module Optional {

  datatype Option<+T> = None | Some(value: T)
  {
    /** The value held, or `default` when the value is `undefined`. */
    function GetOr(default: T): T
    {
      match this
      case Some(v) => v
      case None => default
    }
  }

  /** JavaScript truthiness of an optional string: `undefined` and `""` are falsy. */
  predicate Truthy(s: Option<string>)
  {
    s.Some? && s.value != ""
  }
}
