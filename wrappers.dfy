/** An optional value: a JSON field that is `null` or missing is `None`. */
module Wrappers {

  datatype Option<+T> = None | Some(value: T)
}
