/** Python's `None`-or-value fields (`next_direction`, `last`). */
module Wrappers {
  datatype Option<+T> = None | Some(value: T)
}
