/** Optional values: a position that may be `npos`, a stat that may fail, an iterator that may be `end()`. */
module Wrappers {

  datatype Option<+T> = None | Some(value: T)
}
