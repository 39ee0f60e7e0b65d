/** The optional value used for absent inputs and for parsers that may reject their input. */
module Wrappers {

  datatype Option<+T> = None | Some(value: T)
}
