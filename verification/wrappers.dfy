/** Optional values. */
module Wrappers {

  /** A value that may be absent: a missing file, a segment that does not parse. */
  datatype Option<+T> = None | Some(value: T)
}
