/** An optional value, for what the source leaves out or sets to nothing. */
module Wrappers {
  datatype Option<+T> = None | Some(value: T)
}
