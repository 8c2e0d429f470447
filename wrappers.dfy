/** Optional values, for the project directory that may not have been set. */
module Wrappers {

  datatype Option<+T> = None | Some(value: T)
}
