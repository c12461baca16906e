/** A value that may be missing: Go's nil pointers, zero times and failed lookups. */
module Wrappers {
  datatype Option<+T> = None | Some(value: T)
}
