/** PHP's nullable values: a request parameter that is absent, a `?int`, a `?string`. */
module Wrappers {

  datatype Option<+T> = None | Some(value: T)

}
