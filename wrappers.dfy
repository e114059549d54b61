/** Optional values: a file whose text could be read, or could not. */
module Wrappers {

  datatype Option<+T> = None | Some(value: T)
}
