/** Optional results, for the lookups that may find nothing (a null pointer in C++). */
module Wrappers {

  datatype Option<+T> = None | Some(value: T)
}
