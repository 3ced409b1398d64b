/** Optional values: PHP's `false`/absent results become `None`. */
module Wrappers {

  datatype Option<+T> = None | Some(value: T)
}
