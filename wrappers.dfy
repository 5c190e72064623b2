/** The conventional optional value, used for "no section open yet" and "not a header". */
module Wrappers {
  datatype Option<+T> = None | Some(value: T)
}
