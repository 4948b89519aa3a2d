/** The unset-or-set values that the component keeps in place of JavaScript's `null`. */
module Wrappers {

  datatype Option<+T> = None | Some(value: T)
}
