/**
 * The unmute command (src/commands/Moderation/unmute.js): lift a member's
 * timeout, but only when one is in force.
 */
module Unmute {
  import opened Wrappers
  import opened Members
  import Mute

  datatype UnmuteReply = TimeoutLifted(reason: string) | NotTimedOutError | UnmuteFailed

  /**
   * unmuteUser. `target` is null when `members.fetch` throws; the outcome of
   * the platform's timeout call is `timeoutSucceeds`.
   */
  method UnmuteUser(target: GuildMember?, reason: string, timeoutSucceeds: bool) returns (reply: UnmuteReply)
    modifies target
    ensures target == null ==> reply == UnmuteFailed
    ensures target != null && !old(target.IsCommunicationDisabled()) ==>
              reply == NotTimedOutError && target.state == old(target.state)
    ensures target != null && old(target.IsCommunicationDisabled()) ==>
              && reply == (if timeoutSucceeds then TimeoutLifted(reason) else UnmuteFailed)
              && target.state == AfterTimeout(old(target.state), None, reason, timeoutSucceeds)
    ensures reply.TimeoutLifted? ==> target != null && timeoutSucceeds && !target.IsCommunicationDisabled()
    ensures !reply.TimeoutLifted? && target != null ==> target.state == old(target.state)
  {
    if target == null {
      return UnmuteFailed;
    }
    if !target.IsCommunicationDisabled() {
      return NotTimedOutError;
    }
    var ok := target.Timeout(None, reason, timeoutSucceeds);
    reply := if ok then TimeoutLifted(reason) else UnmuteFailed;
  }

  /** Omitting the reason gives "No reason provided", the same default as mute. */
  lemma DefaultReasonUsed(reason: Option<string>)
    ensures Mute.ReasonOrDefault(reason) == if reason.Some? then reason.value else "No reason provided"
  {
  }
}
