/** Optional values (a JavaScript field that may be undefined) and outcomes
    of platform calls that may throw. */
module Wrappers {

  /** `None` stands for `undefined`/`null`, `Some(v)` for a present value. */
  datatype Option<+T> = None | Some(value: T)

  /** The outcome of a platform call: a value, or a thrown error. */
  datatype Result<+T> = Ok(value: T) | Error
}
