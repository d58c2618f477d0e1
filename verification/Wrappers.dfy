/** A value that may be missing: the null pointers and error returns of the C sources. */
module Wrappers {
  datatype Option<+T> = None | Some(value: T)
}
