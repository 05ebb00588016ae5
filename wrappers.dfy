/** Optional values: a TypeScript field that may be `undefined`. */
module Wrappers {

  datatype Option<+T> = None | Some(value: T) {

    /** The value, or `default` when the field is absent (`x ?? default`). */
    function GetOr(default: T): T {
      match this
      case Some(v) => v
      case None => default
    }
  }

  /** JavaScript truthiness of an optional string: present and non-empty. */
  predicate TruthyStr(o: Option<string>) {
    o.Some? && o.value != ""
  }

  /** JavaScript truthiness of an optional boolean: present and `true`. */
  predicate TruthyBool(o: Option<bool>) {
    o == Some(true)
  }
}
