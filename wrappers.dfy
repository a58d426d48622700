/** Optional values, used for parses and searches that can fail. */
module Wrappers {

  datatype Option<T> = None | Some(value: T)

}
