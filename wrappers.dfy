/** Optional values, used where the source returns null or a "not found" default. */
module Wrappers {

  datatype Option<+T> = None | Some(value: T)
}
