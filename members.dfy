/**
 * A guild member as the moderation commands see it once `members.fetch`
 * has resolved it, with its timeout state as a small state machine driven
 * by `member.timeout(duration | null, reason)`.
 */
module Members {
  import opened Wrappers

  /** Whether the platform currently has the member's communication disabled. */
  datatype TimeoutState = NotTimedOut | TimedOut(durationMs: nat, reason: string)

  /**
   * The transition of `member.timeout(d, reason)`: a call that throws
   * changes nothing; `null` lifts the timeout; a duration sets one.
   */
  function AfterTimeout(s: TimeoutState, durationMs: Option<nat>, reason: string, succeeds: bool): TimeoutState {
    if !succeeds then s
    else match durationMs
      case None => NotTimedOut
      case Some(ms) => TimedOut(ms, reason)
  }

  class GuildMember {
    const userId: string
    /** `roles.highest.position` */
    const highestRole: int
    /** `moderatable`, as reported by the platform (the bot outranks the member). */
    const moderatable: bool
    var state: TimeoutState

    constructor (userId: string, highestRole: int, moderatable: bool, state: TimeoutState)
      ensures this.userId == userId && this.highestRole == highestRole
      ensures this.moderatable == moderatable && this.state == state
    {
      this.userId := userId;
      this.highestRole := highestRole;
      this.moderatable := moderatable;
      this.state := state;
    }

    /** `isCommunicationDisabled()` */
    predicate IsCommunicationDisabled()
      reads this
    {
      state.TimedOut?
    }

    /**
     * `timeout(duration | null, reason)`: the platform call either succeeds
     * or throws (`succeeds` is its outcome).
     */
    method Timeout(durationMs: Option<nat>, reason: string, succeeds: bool) returns (ok: bool)
      modifies this
      ensures ok == succeeds
      ensures state == AfterTimeout(old(state), durationMs, reason, succeeds)
      ensures ok && durationMs.Some? ==> IsCommunicationDisabled()
      ensures ok && durationMs.None? ==> !IsCommunicationDisabled()
    {
      ok := succeeds;
      state := AfterTimeout(state, durationMs, reason, succeeds);
    }
  }

  /** The member's rank, or None when it could not be fetched. */
  function RankOf(m: GuildMember?): Option<int> {
    if m == null then None else Some(m.highestRole)
  }
}
