/** Failure-carrying helper types shared by the storage model. */
module Wrappers {

  /** An optional value. As the error slot of a Go return, `None` plays the
      role of a `nil` error. */
  datatype Option<+T> = None | Some(value: T)
}
