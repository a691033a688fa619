/** Optional values, used for lookups that the source answers with null or -1. */
module Wrappers {
  datatype Option<+T> = None | Some(value: T)
}
