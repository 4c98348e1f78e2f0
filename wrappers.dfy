/** An optional value: a JavaScript property that is either set or `undefined`. */
module Wrappers {

  datatype Option<+T> = None | Some(value: T)
}
