/** Optional values, for C pointers that may be NULL and lookups that may miss. */
module Wrappers {
  datatype Option<T> = None | Some(value: T)
}
