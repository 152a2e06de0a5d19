/** The optional value used for "no match" and "not loaded" results. */
module Wrappers {

  datatype Option<+T> = None | Some(value: T)

}
