/** A value that may be absent, as a key that a parsed document may lack. */
module Wrappers {

  datatype Option<+T> = None | Some(value: T)
}
