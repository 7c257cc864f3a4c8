/** The optional value used where the page works with `string | null` or
    with an array read that may give `undefined`. */
module Wrappers {
  datatype Option<+T> = None | Some(value: T)
}
