/** The optional-value wrapper the capturer uses for its nullable handles. */
module Wrappers {

  /** A value that may be absent: a missing X resource or an unset callback. */
  datatype Option<+T> = None | Some(value: T)
}
