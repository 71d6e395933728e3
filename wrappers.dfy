/** Optional values: a result that may be missing (a panic, a failed listing). */
module Wrappers {

  datatype Option<+T> = None | Some(value: T)
}
