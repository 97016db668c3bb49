/** The optional value used for "nothing selected yet". */
module Wrappers {

  /** `None` stands for the `null` the page starts with; `Some(v)` for a selected value. */
  datatype Option<+T> = None | Some(value: T)
}
