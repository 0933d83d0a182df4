/**
 * The result of a validation check. Both rule files declare the same
 * `Status` shape: a validity flag and an optional message.
 */
module Statuses {
  import opened Wrappers

  datatype Status = Status(valid: bool, message: Option<string>)

  /** `{valid: true}`: no message key at all. */
  const Passed: Status := Status(true, None)

  function Failed(message: string): Status {
    Status(false, Some(message))
  }

  /**
   * A message is present exactly when the status is invalid, and it is never
   * empty; so `Passed` is the one well-formed valid status.
   */
  predicate WellFormed(s: Status)
    ensures WellFormed(s) ==> (s.valid <==> s == Passed)
  {
    (s.valid <==> s.message.None?) && (s.message.Some? ==> |s.message.value| > 0)
  }
}
