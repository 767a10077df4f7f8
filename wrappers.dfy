/** Optional values: `None` stands for the source's NULL block pointer. */
module Wrappers {
  datatype Option<+T> = None | Some(value: T)
}
