/** The optional value used wherever the widget's JavaScript has `null`. */
module Wrappers {

  datatype Option<+T> = None | Some(value: T)
}
