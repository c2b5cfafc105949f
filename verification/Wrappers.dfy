/** The optional result that the caches return where the source returns `boost::optional`. */
module Wrappers {
  datatype Option<+T> = None | Some(value: T)
}
