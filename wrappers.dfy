/** Failure-carrying values shared by the store and the screens. */
module Wrappers {

  /** A value that may be absent: the `undefined` that `find` returns. */
  datatype Option<T> = None | Some(value: T)

  /** The verdict of a form check: it passes, or fails with the inline message the screen shows. */
  datatype Outcome<E> = Pass | Fail(error: E)
}
