/** The optional value used for the controller's interval handle (`number | null`). */
module Wrappers {
  datatype Option<+T> = None | Some(value: T)
}
