/** Optional values, used for NULL-able references and for lookups that may miss. */
module Wrappers {
  datatype Option<+T> = None | Some(value: T)
}
