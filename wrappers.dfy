/** Optional values, shared by the models of both core files. */
module Wrappers {
  datatype Option<+T> = None | Some(value: T)
}
