/** The optional value used for a lap slot that holds no time. */
module Wrappers {

  datatype Option<+T> = None | Some(value: T)

}
