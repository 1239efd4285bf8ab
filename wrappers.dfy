/** Optional results: the model of Swift's `T?` return values. */
module Wrappers {

  datatype Option<+T> = None | Some(value: T)
}
