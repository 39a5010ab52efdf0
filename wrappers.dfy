/** The optional value used wherever the application yields `undefined` or `null`. */
module Wrappers {

  datatype Option<+T> = None | Some(value: T)

}
