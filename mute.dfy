/**
 * The mute command (src/commands/Moderation/mute.js): option defaults, the
 * guard chain of muteUser, and the timeout it applies.
 */
module Mute {
  import opened Wrappers
  import opened Members

  const MinDurationMinutes: int := 1
  /** Seven days. */
  const MaxDurationMinutes: int := 10080
  const DefaultDurationMinutes: int := 10
  const DefaultReason: string := "No reason provided"

  datatype MuteError =
    | NotModeratable      // the bot cannot time this member out
    | OutRanked           // target's highest role >= moderator's, and the moderator is not the owner
    | DurationOutOfRange  // outside 1..10080 minutes
    | CommandFailed       // anything thrown: generic error reply

  datatype MuteReply = TimedOutFor(minutes: int, durationMs: nat, reason: string) | MuteRejected(error: MuteError)

  /** `getInteger("duration") ?? 10` (slash) and `pick("integer").catch(() => 10)` (prefix). */
  function DurationOrDefault(duration: Option<int>): int {
    match duration
    case Some(d) => d
    case None => DefaultDurationMinutes
  }

  /** `getString("reason") ?? "No reason provided"` and its prefix-command twin. */
  function ReasonOrDefault(reason: Option<string>): string {
    match reason
    case Some(r) => r
    case None => DefaultReason
  }

  /** `duration * 60 * 1000` */
  function MinutesToMs(minutes: nat): nat {
    minutes * 60 * 1000
  }

  /**
   * The guards of muteUser in their order; the first that fails decides.
   * A moderator that is not a guild member (no rank) makes the rank check
   * throw, which ends in the generic error.
   */
  function MuteGuard(moderatable: bool, targetRank: int, moderatorRank: Option<int>, moderatorIsOwner: bool,
                     minutes: int): Option<MuteError>
  {
    if !moderatable then Some(NotModeratable)
    else if moderatorRank.None? then Some(CommandFailed)
    else if targetRank >= moderatorRank.value && !moderatorIsOwner then Some(OutRanked)
    else if minutes < MinDurationMinutes || minutes > MaxDurationMinutes then Some(DurationOutOfRange)
    else None
  }

  /**
   * muteUser. `target` is null when `members.fetch` throws; the outcome of
   * the platform's timeout call is `timeoutSucceeds`.
   */
  method MuteUser(target: GuildMember?, moderatorId: string, moderatorRank: Option<int>, ownerId: string,
                  minutes: int, reason: string, timeoutSucceeds: bool) returns (reply: MuteReply)
    modifies target
    ensures target == null ==> reply == MuteRejected(CommandFailed)
    ensures target != null ==>
              var guard := MuteGuard(target.moderatable, target.highestRole, moderatorRank, ownerId == moderatorId, minutes);
              && (guard.Some? ==> reply == MuteRejected(guard.value) && target.state == old(target.state))
              && (guard.None? ==>
                    && minutes >= 1
                    && reply == (if timeoutSucceeds then TimedOutFor(minutes, MinutesToMs(minutes), reason)
                                 else MuteRejected(CommandFailed))
                    && target.state == AfterTimeout(old(target.state), Some(MinutesToMs(minutes)), reason, timeoutSucceeds))
    ensures reply.TimedOutFor? ==>
              && target != null && timeoutSucceeds
              && target.state == TimedOut(reply.durationMs, reason)
              && 60 * 1000 <= reply.durationMs <= 7 * 24 * 60 * 60 * 1000
  {
    if target == null {
      return MuteRejected(CommandFailed);
    }
    var rejection := MuteGuard(target.moderatable, target.highestRole, moderatorRank, ownerId == moderatorId, minutes);
    if rejection.Some? {
      return MuteRejected(rejection.value);
    }
    var durationMs := MinutesToMs(minutes);
    var ok := target.Timeout(Some(durationMs), reason, timeoutSucceeds);
    if ok {
      reply := TimedOutFor(minutes, durationMs, reason);
    } else {
      reply := MuteRejected(CommandFailed);
    }
  }

  /**
   * The guards pass exactly when the member is moderatable, the moderator
   * outranks it or owns the guild, and the duration is in 1..10080.
   */
  lemma MuteGuardPasses(moderatable: bool, targetRank: int, moderatorRank: int, moderatorIsOwner: bool, minutes: int)
    ensures MuteGuard(moderatable, targetRank, Some(moderatorRank), moderatorIsOwner, minutes).None? <==>
              && moderatable
              && (targetRank < moderatorRank || moderatorIsOwner)
              && 1 <= minutes <= 10080
  {
  }

  /** Guard order: a rank failure is reported only for a moderatable target, a duration failure only once rank passed. */
  lemma MuteGuardOrder(moderatable: bool, targetRank: int, moderatorRank: int, moderatorIsOwner: bool, minutes: int)
    ensures !moderatable ==> MuteGuard(moderatable, targetRank, Some(moderatorRank), moderatorIsOwner, minutes) == Some(NotModeratable)
    ensures MuteGuard(moderatable, targetRank, Some(moderatorRank), moderatorIsOwner, minutes) == Some(OutRanked) <==>
              moderatable && targetRank >= moderatorRank && !moderatorIsOwner
    ensures MuteGuard(moderatable, targetRank, Some(moderatorRank), moderatorIsOwner, minutes) == Some(DurationOutOfRange) <==>
              moderatable && (targetRank < moderatorRank || moderatorIsOwner) && !(1 <= minutes <= 10080)
  {
  }

  /** The guild owner passes the rank check against any target; an equal rank does not pass otherwise. */
  lemma OwnerExemption(targetRank: int, moderatorRank: int, minutes: int)
    requires 1 <= minutes <= 10080
    ensures MuteGuard(true, targetRank, Some(moderatorRank), true, minutes) == None
    ensures MuteGuard(true, moderatorRank, Some(moderatorRank), false, minutes) == Some(OutRanked)
  {
  }

  /** Omitted options default to 10 minutes, which passes the duration guard, and "No reason provided". */
  lemma DefaultsAccepted()
    ensures DurationOrDefault(None) == 10 && ReasonOrDefault(None) == "No reason provided"
    ensures MinDurationMinutes <= DurationOrDefault(None) <= MaxDurationMinutes
    ensures MinutesToMs(DurationOrDefault(None) as nat) == 600000
  {
  }
}
