/** Optional values, standing in for the nullable pointers of the simulator
    (the next-level cache and the victim cache). */
module Wrappers {

  datatype Option<+T> = None | Some(value: T)
}
