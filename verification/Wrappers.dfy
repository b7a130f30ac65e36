/** Result types shared by the modules. */
module Wrappers {
  datatype Option<T> = None | Some(value: T)

  /** How a call ends: it returns, or crash() stops the machine. */
  datatype Outcome = Done | Crash
}
