/** Result types shared by the models of the individual packages. */
module Wrappers {

  datatype Option<+T> = None | Some(value: T)

  datatype Result<+T, +E> = Ok(value: T) | Err(error: E)

  /** How one call to an external store ended: applied and acknowledged, rejected, or applied with
      the acknowledgement lost, so that the caller sees an error although the effect took place. */
  datatype Outcome = Done | Refused | Unacknowledged {
    predicate Applied() { !Refused? }
    predicate Failed() { !Done? }
  }
}
