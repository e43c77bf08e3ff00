/** The conventional optional value: `None` stands for a JSON value that is
    absent or `null`, `Some(v)` for one that is present. */
module Wrappers {

  datatype Option<+T> = None | Some(value: T)
}
