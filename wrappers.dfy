/** The optional value the modelled code returns from `rfind` and keeps in its options. */
module Wrappers {
  datatype Option<+T> = None | Some(value: T)
}
