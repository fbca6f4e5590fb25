/** Optional values: Java's nullable references (`String`, `ValidateRequest`). */
module Wrappers {

  datatype Option<+T> = None | Some(value: T)
}
