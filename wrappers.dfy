/** The optional value used wherever the scripts fall back to None, a default or an empty result. */
module Wrappers {
  datatype Option<+T> = None | Some(value: T)
}
