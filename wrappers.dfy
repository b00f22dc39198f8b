/** Failure-compatible result type shared by the models: `None` stands for any
    exception the source raises (TypeError, ValueError, AssertionError, KeyError). */
module Wrappers {
  datatype Option<+T> = None | Some(value: T)
}
