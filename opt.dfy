/** A value that may be absent: the model's stand-in for JavaScript's `null`. */
module Opt {
  datatype Option<+T> = None | Some(value: T)
}
