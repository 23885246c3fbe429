/** Optional values, standing for the source's nullable references and Guava's Optional. */
module Wrappers {
  datatype Option<+T> = None | Some(value: T)
}
