/** The optional value returned by std::optional-style calls of the model. */
module Wrappers {

  datatype Option<+T> = None | Some(value: T)
}
