/** Optional values: a command-line argument that may be absent, a file that may not open. */
module Wrappers {
  datatype Option<+T> = None | Some(value: T)
}
