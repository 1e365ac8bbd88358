/** Optional values: the model's stand-in for `null`/`undefined` and for a draw stream that runs dry. */
module Wrappers {
  datatype Option<+T> = None | Some(value: T)
}
