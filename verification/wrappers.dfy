/** The optional-value datatype used throughout the model.  A JavaScript
    `number` that may be `NaN` is an `Option<int>`: `None` stands for `NaN`. */
module Wrappers {

  datatype Option<+T> = None | Some(value: T)
}
