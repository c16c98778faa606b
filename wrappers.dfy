/** The optional value that Python spells as "a value or None". */
module Wrappers {
  datatype Option<+T> = None | Some(value: T)
}
