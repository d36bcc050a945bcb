/** Small helper datatypes shared by the storage modules. */
module Wrappers {

  /** A value that may be absent: Go's `(v, ok)` pairs, nil slots and nil errors. */
  datatype Option<+T> = None | Some(value: T)
}
