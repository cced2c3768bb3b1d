/** The optional result of a lookup, standing for `boost::optional`. */
module Wrappers {

  datatype Option<+T> = None | Some(value: T)
}
