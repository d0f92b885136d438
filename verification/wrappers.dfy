/** The optional result shared by every operation that can refuse its input. */
module Wrappers {

  datatype Option<T> = None | Some(value: T)
}
