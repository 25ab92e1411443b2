/** The optional value used for regex matches, directory listings and file contents. */
module Wrappers {
  datatype Option<+T> = None | Some(value: T)
}
