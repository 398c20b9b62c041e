/** The Option type shared by the other modules: JavaScript's `null`,
    `undefined` and `NaN` outcomes become `None`. */
module Wrappers {

  datatype Option<T> = None | Some(value: T)
}
