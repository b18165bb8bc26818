/** Optional values, for the `null`s and missing entries of the server. */
module Wrappers {

  datatype Option<+T> = None | Some(value: T)

}
