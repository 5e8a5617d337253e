/** Option stands in for Go's `*string`: `nil` is None, a pointer to s is Some(s). */
module Wrappers {

  datatype Option<+T> = None | Some(value: T)
}
