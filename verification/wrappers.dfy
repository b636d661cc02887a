/** The optional-value datatype shared by the authorization model. */
module Wrappers {

  /** `None` stands for a JavaScript value that is `undefined`. */
  datatype Option<+T> = None | Some(value: T)
}
