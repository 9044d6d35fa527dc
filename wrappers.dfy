/** The optional value used where the browser may hand back nothing:
    an unparseable date, or no element to focus. */
module Wrappers {

  datatype Option<T> = None | Some(value: T)
}
