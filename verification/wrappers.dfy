/** Optional values: the model's rendering of Python's `None` and of a lookup that may miss. */
module Wrappers {

  datatype Option<+T> = None | Some(value: T)
}
