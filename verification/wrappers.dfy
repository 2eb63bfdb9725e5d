/** The optional value used throughout the model. Where the source panics
    (an `unwrap` on nothing, a failed `assert!`, `panic!`), a model function
    returns `None`. */
module Wrappers {

  datatype Option<+T> = None | Some(value: T)
}
