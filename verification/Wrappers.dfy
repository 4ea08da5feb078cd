/** The optional-value datatype used throughout the model: `None` stands for
    a Python exception (a failed decode, a failed `int()`), `Some` for a value. */
module Wrappers {

  datatype Option<+T> = None | Some(value: T)
}
