/** The missing-value carrier shared by every module: `None` plays the role of
    pandas' NaN marker. */
module Wrappers {
  datatype Option<+T> = None | Some(value: T)
}
