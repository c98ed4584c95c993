/** The optional value used for reads that can come up short. */
module Wrappers {

  datatype Option<+T> = None | Some(value: T)
}
