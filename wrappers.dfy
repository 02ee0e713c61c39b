/** The optional-value type shared by the other modules. */
module Wrappers {

  /** A value that may be absent: the model's stand-in for JavaScript's
      `null`/`undefined` and for the `URIError` a decoder throws. */
  datatype Option<+T> = None | Some(value: T)
}
