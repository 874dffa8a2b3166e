/** Optional values: a parse that may fail, a file that may be missing. */
module Wrappers {
  datatype Option<+T> = None | Some(value: T)
}
