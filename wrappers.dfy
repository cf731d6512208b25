/** The optional value used for "no match" and "no file" results. */
module Wrappers {
  datatype Option<+T> = None | Some(value: T)
}
