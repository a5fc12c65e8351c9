/** Small helper datatypes shared by the throttle and debounce models. */
module Wrappers {

  /** An optional value: `None` when there is nothing, `Some(v)` otherwise. */
  datatype Option<+T> = None | Some(value: T)
}
