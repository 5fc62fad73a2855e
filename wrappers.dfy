/** The optional value the source expresses as `undefined` / `null`. */
module Wrappers {

  datatype Option<+T> = None | Some(value: T)
}
