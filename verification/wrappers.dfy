/** An optional value: `undefined`/`null` versus a value that is there. */
module Wrappers {
  datatype Option<T> = None | Some(value: T)
}
