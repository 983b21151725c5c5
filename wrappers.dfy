/** An optional value, for the nullable references and missing keys of the source. */
module Wrappers {
  datatype Option<+T> = None | Some(value: T)
}
