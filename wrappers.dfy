/** The optional value that stands for JavaScript's `undefined` results. */
module Wrappers {

  datatype Option<+T> = None | Some(value: T)

}
