/** Optional values: a missing database row, a timestamp that does not parse. */
module Wrappers {

  datatype Option<+T> = None | Some(value: T)
}
