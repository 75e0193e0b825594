/** Optional values: a DOM lookup that may find nothing, an attribute that may be absent. */
module Wrappers {
  datatype Option<+T> = None | Some(value: T)
}
