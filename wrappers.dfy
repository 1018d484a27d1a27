/** Optional values, used wherever the source returns nil or fails. */
module Wrappers {

  datatype Option<+T> = None | Some(value: T)
}
