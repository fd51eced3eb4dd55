/** Optional values, standing in for a JSON key that may be missing or null. */
module Wrappers {

  datatype Option<+T> = None | Some(value: T)
}
