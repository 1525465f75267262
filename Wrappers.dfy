/** The optional value used where the source either yields a value or
    raises (and the caller catches it). */
module Wrappers {
  datatype Option<+T> = None | Some(value: T)
}
