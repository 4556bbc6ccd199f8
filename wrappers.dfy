/** An optional value: `None` stands for Python's `None` argument and for an unreachable distance. */
module Wrappers {
  datatype Option<+T> = None | Some(value: T)
}
