/** The optional value used for "no thread found yet" and for an omitted command option. */
module Wrappers {
  datatype Option<+T> = None | Some(value: T)
}
