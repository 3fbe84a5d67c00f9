/** Option and Result, used in place of JavaScript's `undefined` and `NaN` sentinels. */
module Wrappers {

  /** An optional value: `None` stands for an absent request field or an unparseable input. */
  datatype Option<+T> = None | Some(value: T)

  /** Either a value or an error, for handler steps that may stop early. */
  datatype Result<+R, +E> = Success(value: R) | Failure(error: E)
}
