/** The optional value used for JavaScript's "parsed or not" and for nullable columns. */
module Wrappers {

  datatype Option<+T> = None | Some(value: T)

}
