/** Optional values, standing for Go's nil-able `error`. */
module Wrappers {

  datatype Option<+T> = None | Some(value: T)
}
