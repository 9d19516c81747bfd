/** The optional value used for the source's "0 or a result" returns. */
module Wrappers {
  datatype Option<+T> = None | Some(value: T)
}
