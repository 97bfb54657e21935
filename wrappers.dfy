/** Small failure-compatible datatypes shared by the other modules. */
module Wrappers {

  /** An optional value: `None` stands for JavaScript's `undefined` or an absent key. */
  datatype Option<+T> = None | Some(value: T)

  /** The outcome of a call that either returns normally or throws with a message. */
  datatype Outcome<+E> = Pass | Fail(error: E)
}
