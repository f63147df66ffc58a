/** An optional value: a Go nil interface or pointer is None. */
module Wrappers {

  datatype Option<+T> = None | Some(value: T)
}
