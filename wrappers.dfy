/** Optional values, used for the result of a lookup that may find nothing. */
module Wrappers {

  datatype Option<+T> = None | Some(value: T)
}
