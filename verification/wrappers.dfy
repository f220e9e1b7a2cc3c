/** A value that may be missing: JavaScript's `undefined` where a value is optional. */
module Wrappers {

  datatype Option<+T> = None | Some(value: T)
}
