/** Optional values: a property that a JSON payload may or may not carry. */
module Wrappers {

  datatype Option<+T> = None | Some(value: T)
}
