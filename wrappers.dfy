/** The optional-value datatype the model uses for "no exit SELL" and "no performance report". */
module Wrappers {
  datatype Option<+T> = None | Some(value: T)
}
