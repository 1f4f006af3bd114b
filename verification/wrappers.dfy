/** An optional value shared by the other modules. */
module Wrappers {

  /** An optional value; used for JavaScript's NaN and `undefined` and for
      events the host cannot deliver. */
  datatype Option<+T> = None | Some(value: T)
}
