/** Optional values, used where the driver signals "no result" (a failed parse, `npos`). */
module Wrappers {
  datatype Option<+T> = None | Some(value: T)
}
