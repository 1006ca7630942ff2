/** Optional values: the model of a value that may be absent. */
module Wrappers {

  /** A value that may be missing (a PHP array key that is not set, or null). */
  datatype Option<+T> = None | Some(value: T)
}
