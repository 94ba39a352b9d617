/** The "undefined" marker that the source expresses as a floating-point NaN. */
module Wrappers {

  datatype Option<+T> = None | Some(value: T)

}
