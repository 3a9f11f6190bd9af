/** Optional values and the outcome of an operation that may stop the kernel. */
module Wrappers {

  datatype Option<+T> = None | Some(value: T)

  /** `Panic` is a reached `panic!`, failed `assert!` or arithmetic overflow: the kernel stops there. */
  datatype Outcome<+T> = Done(value: T) | Panic
}
