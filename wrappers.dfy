/** Optional values, used for the nullable references of the source (a node's parent). */
module Wrappers {

  datatype Option<+T> = None | Some(value: T)
}
