/** Optional values: a JavaScript field that may be `undefined` is an Option. */
module Wrappers {

  datatype Option<+T> = None | Some(value: T)
}
