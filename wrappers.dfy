/** The optional-value datatype shared by the model: `None` stands for the
    JavaScript `undefined`, `null` or `NaN` that the script tests for. */
module Wrappers {

  datatype Option<+T> = None | Some(value: T)
}
