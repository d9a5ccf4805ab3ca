/** A value that may be absent: stands for a JavaScript field that holds no meaningful value. */
module Wrappers {
  datatype Option<+T> = None | Some(value: T)
}
