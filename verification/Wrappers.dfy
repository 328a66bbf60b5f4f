/** Optional values, for the source's None and for lookups that can fail. */
module Wrappers {
  datatype Option<+T> = None | Some(value: T)
}
