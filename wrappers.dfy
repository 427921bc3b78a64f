/** The Option type that stands for Python's `X | None` return values. */
module Wrappers {

  datatype Option<+T> = None | Some(value: T)
}
