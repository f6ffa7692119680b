/** Option type shared by every tool model. */
module Wrappers {

  /** `None` stands for the source's `null`, `NaN` or "no result" values. */
  datatype Option<+T> = None | Some(value: T)
}
