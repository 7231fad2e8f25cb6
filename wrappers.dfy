/** Optional values: Python's `None`, C's null pointer. */
module Wrappers {

  datatype Option<+T> = None | Some(value: T)
}
