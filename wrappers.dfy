/** Optional values: Python's `None` and the absent `href` of an anchor. */
module Wrappers {

  datatype Option<+T> = None | Some(value: T)
}
