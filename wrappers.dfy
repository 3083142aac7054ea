/** The optional value used wherever the modelled code can fail or has no answer. */
module Wrappers {
  datatype Option<+T> = None | Some(value: T)
}
