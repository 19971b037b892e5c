/** Optional values, standing in for the source's `null`-or-object references. */
module Wrappers {

  datatype Option<+T> = None | Some(value: T)
}
