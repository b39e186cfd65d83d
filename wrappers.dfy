/** A value that may be absent: a Java reference that may be null, or the result of a call that may throw. */
module Wrappers {

  datatype Option<+T> = None | Some(value: T)
}
