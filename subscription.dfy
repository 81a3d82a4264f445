/**
 * The subscription gate: a user may use the bot when the messaging
 * platform reports them as creator, administrator or member of the
 * configured channel. The platform lookup itself is outside the model; its
 * result arrives as `Some(status)`, or `None` when the lookup raised.
 */
module Subscription {
  import opened Wrappers

  const MemberStatuses: seq<string> := ["creator", "administrator", "member"]

  /** Fail-closed membership test. */
  function IsSubscribed(lookup: Option<string>): (ok: bool)
    ensures ok ==> lookup.Some?
    ensures ok <==> lookup == Some("creator") || lookup == Some("administrator") || lookup == Some("member")
  {
    match lookup
    case None => false
    case Some(status) => status in MemberStatuses
  }

  /**
   * A failed lookup and every other status the platform reports (restricted,
   * left, kicked) all close the gate.
   */
  lemma GateFailsClosed(status: string)
    requires status in ["restricted", "left", "kicked"]
    ensures !IsSubscribed(None) && !IsSubscribed(Some(status))
  {
  }
}
