/** An optional value: the source's `null` piece slots and the `undefined`
    result of a move that is ignored. */
module Wrappers {
  datatype Option<+T> = None | Some(value: T)
}
