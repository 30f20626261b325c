/** The conventional Option datatype: Go's nilable pointers are modelled with it. */
module Wrappers {

  datatype Option<+T> = None | Some(value: T)
}
