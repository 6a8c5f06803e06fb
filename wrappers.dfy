/** The optional value used throughout the model: an absent field, a failed
    search or an operation that throws in the original program. */
module Wrappers {
  datatype Option<+T> = None | Some(value: T)
}
