/** The Option type shared by the other modules. */
module Wrappers {

  /** A value that may be absent: JavaScript's `null`/`undefined`, a failed
      lookup, or an operation that stopped early. */
  datatype Option<+T> = None | Some(value: T)
}
