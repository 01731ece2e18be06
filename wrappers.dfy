/** Optional values: a node's parent link may be absent. */
module Wrappers {
  datatype Option<+T> = None | Some(value: T)
}
