/** Optional values: the model of std::optional and of a nullable owning pointer. */
module Wrappers {
  datatype Option<+T> = None | Some(value: T)
}
