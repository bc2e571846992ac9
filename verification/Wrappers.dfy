/**
 A value that may be missing, for the pointers of the source that may be NULL.
 */
module Wrappers {

  datatype Option<+T> = None | Some(value: T)
}
