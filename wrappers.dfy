/** An optional value: `None` stands for JavaScript's `undefined` results and for thrown errors. */
module Wrappers {

  datatype Option<+T> = None | Some(value: T)
}
