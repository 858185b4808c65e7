/** The usual optional value: `None` stands for Python's `None`. */
module Opt {
  datatype Option<+T> = None | Some(value: T)
}
