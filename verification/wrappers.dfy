/** The optional value used wherever the widget's JavaScript relies on a
    falsy lookup or on `NaN` to mean "nothing here". */
module Wrappers {

  datatype Option<+T> = None | Some(value: T)
}
