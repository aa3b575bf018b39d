/** Optional values, used for "no match" and "no error" results. */
module Wrappers {

  datatype Option<+T> = None | Some(value: T)

}
