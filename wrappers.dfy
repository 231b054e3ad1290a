/** Optional values, standing for the nullable pointers of the mesh library. */
module Wrappers {

  datatype Option<+T> = None | Some(value: T)
}
