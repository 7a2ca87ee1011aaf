/** Optional values, standing for the nullable `Node *` links of the source. */
module Wrappers {
  datatype Option<+T> = None | Some(value: T)
}
