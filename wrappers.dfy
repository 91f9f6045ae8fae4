/** The usual optional value, used for JavaScript's "may be undefined". */
module Wrappers {
  datatype Option<+T> = None | Some(value: T)
}
