/** The optional value the model returns where the source returns an `Option`. */
module Wrappers {
  datatype Option<T> = None | Some(value: T)
}
