/** An optional value: a lookup that may find nothing, a JSON `null`. */
module Wrappers {

  datatype Option<+T> = None | Some(value: T)
}
