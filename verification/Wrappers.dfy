/** The nullable values of the modelled languages: SQL NULL, Python None, an absent field. */
module Wrappers {
  datatype Option<+T> = None | Some(value: T)
}
