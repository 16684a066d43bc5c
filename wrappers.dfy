/** Absence as a value: the model's stand-in for JavaScript's null, undefined and NaN results. */
module Wrappers {

  datatype Option<+T> = None | Some(value: T)
}
