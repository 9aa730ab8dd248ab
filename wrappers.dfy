/** The conventional optional-value datatype, used for JavaScript's `undefined`,
    Python's empty `findall` result and TypeScript's optional fields. */
module Wrappers {

  datatype Option<+T> = None | Some(value: T) {

    /** The value, or `default` when there is none (JavaScript's `??`). */
    function GetOr(default: T): T {
      match this
      case Some(v) => v
      case None => default
    }
  }
}
