/** The absence of a value, as the source expresses it by nil errors and missing rows, and the
    failures of the world outside. */
module Wrappers {
  datatype Option<+T> = None | Some(value: T)

  /** Whether the next statement, file operation or message fails; nothing does while all is well. */
  method Fails(healthy: bool) returns (failed: bool)
    ensures healthy ==> !failed
  {
    failed := *;
    if healthy {
      failed := false;
    }
  }
}
