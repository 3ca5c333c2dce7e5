/** The optional value used for nullable state (`null` / `undefined` in the readers). */
module Wrappers {

  datatype Option<+T> = None | Some(value: T)
}
