/** The optional value the services return where the source returns `null`. */
module Wrappers {
  datatype Option<+T> = None | Some(value: T)
}
