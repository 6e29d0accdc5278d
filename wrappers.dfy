/** A value that may be absent: JavaScript's `null`/`undefined` results and optional fields. */
module Wrappers {
  datatype Option<+T> = None | Some(value: T)
}
