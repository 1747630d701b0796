/** The absent-or-present results of Go's `value, ok` returns and nil pointers. */
module Wrappers {
  datatype Option<+T> = None | Some(value: T)
}
