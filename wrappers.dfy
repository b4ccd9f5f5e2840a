/** Option values for the places where the scripts see `null`/`undefined`
    or a file that may not exist. */
module Wrappers {

  datatype Option<+T> = None | Some(value: T)
}
