/** Optional values: a C pointer that may be NULL, or a handle that may be absent. */
module Wrappers {

  datatype Option<+T> = None | Some(value: T)
}
