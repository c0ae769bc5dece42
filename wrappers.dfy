/** Optional values: a fetched page or the end-of-work marker, and the
    outcome of a non-blocking removal from a queue. */
module Wrappers {

  datatype Option<+T> = None | Some(value: T)
}
