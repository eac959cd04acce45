/** Optional values, used where the program returns a value or `None`. */
module Wrappers {

  datatype Option<+T> = None | Some(value: T)
}
