/**
 * The warn command (src/commands/Moderation/warn.js): the decision logic of
 * its five subcommands over the ledger, and the automatic timeout that
 * follows a warning.
 */
module Warn {
  import opened Wrappers
  import opened LedgerTable
  import opened Ledger
  import opened Escalation
  import opened Members

  /** Active warnings from which a warning brings an automatic timeout. */
  const AutoTimeoutThreshold: nat := 3
  /** handleList shows this many warnings at most. */
  const ListPageSize: nat := 10
  const DefaultRecentLimit: int := 10
  /** Bounds of the `limit` option of `/warn recent`. */
  const MinRecentLimit: int := 1
  const MaxRecentLimit: int := 25

  /** The `user` option: a platform user and whether it is a bot account. */
  datatype User = User(id: string, bot: bool)

  // ---------------------------------------------------------------------------
  // add

  datatype AddRejection = CannotWarnSelf | CannotWarnBot | TargetOutRanks

  datatype AutoAction = NoAutoAction | AutoTimedOut(durationMs: nat) | AutoTimeoutFailed

  datatype AddReply =
    | AddRejected(why: AddRejection)
    | WarningIssued(warningId: nat, totalWarnings: nat, dmDelivered: bool, auto: AutoAction)

  /**
   * The guards of handleAdd in their order. `targetRank` is None when the
   * target is not a member that could be fetched; then no rank check is made.
   * There is no owner exemption here.
   */
  function AddGuard(invokerId: string, invokerRank: int, user: User, targetRank: Option<int>): Option<AddRejection> {
    if user.id == invokerId then Some(CannotWarnSelf)
    else if user.bot then Some(CannotWarnBot)
    else if targetRank.Some? && targetRank.value >= invokerRank then Some(TargetOutRanks)
    else None
  }

  /** The automatic timeout after a warning, if any: from 3 active warnings on, for a fetched member. */
  function AutoTimeout(totalWarnings: nat, memberResolved: bool): Option<nat> {
    if totalWarnings >= AutoTimeoutThreshold && memberResolved then Some(TimeoutDuration(totalWarnings)) else None
  }

  function DecimalString(n: nat): string
    decreases n
  {
    if n < 10 then ["0123456789"[n]] else DecimalString(n / 10) + ["0123456789"[n % 10]]
  }

  /** `Automatic timeout: ${totalWarnings} warnings` */
  function AutoTimeoutReason(totalWarnings: nat): string {
    "Automatic timeout: " + DecimalString(totalWarnings) + " warnings"
  }

  /** What the automatic step reports, given whether the timeout call succeeded. */
  function AutoActionFor(auto: Option<nat>, timeoutSucceeds: bool): AutoAction {
    match auto
    case None => NoAutoAction
    case Some(ms) => if timeoutSucceeds then AutoTimedOut(ms) else AutoTimeoutFailed
  }

  /**
   * handleAdd. `target` is the fetched member (null when the fetch failed),
   * `now` the clock, `dmDelivered` and `timeoutSucceeds` the outcomes of the
   * direct message and of the automatic timeout call.
   */
  method HandleAdd(db: Database, guildId: string, invokerId: string, invokerRank: int, user: User, reason: string,
                   target: GuildMember?, now: nat, dmDelivered: bool, timeoutSucceeds: bool)
    returns (reply: AddReply)
    requires db.Valid()
    requires forall w <- db.rows :: w.createdAt <= now
    requires target != null ==> target.userId == user.id
    modifies db, target
    ensures db.Valid()
    ensures AddGuard(invokerId, invokerRank, user, RankOf(target)).Some? ==>
              && reply == AddRejected(AddGuard(invokerId, invokerRank, user, RankOf(target)).value)
              && db.rows == old(db.rows) && db.nextId == old(db.nextId)
              && (target != null ==> target.state == old(target.state))
    ensures AddGuard(invokerId, invokerRank, user, RankOf(target)).None? ==>
              && reply.WarningIssued?
              && reply.warningId == old(db.nextId)
              && db.rows == old(db.rows) + [Warning(reply.warningId, user.id, guildId, invokerId, reason, now, true)]
              && reply.totalWarnings == WarningCount(db.rows, user.id, guildId)
              && reply.totalWarnings == WarningCount(old(db.rows), user.id, guildId) + 1
              && reply.dmDelivered == dmDelivered
              && reply.auto == AutoActionFor(AutoTimeout(reply.totalWarnings, target != null), timeoutSucceeds)
              && (target != null ==>
                    target.state == StateAfterWarning(old(target.state), reply.totalWarnings, timeoutSucceeds))
    ensures reply.WarningIssued? && reply.auto.AutoTimedOut? ==>
              && target != null && target.userId == user.id
              && target.state == TimedOut(reply.auto.durationMs, AutoTimeoutReason(reply.totalWarnings))
  {
    var rejection := AddGuard(invokerId, invokerRank, user, RankOf(target));
    if rejection.Some? {
      return AddRejected(rejection.value);
    }
    var warningId, createdAt := db.AddWarning(user.id, guildId, invokerId, reason, now);
    var totalWarnings := db.GetWarningCount(user.id, guildId);
    var auto := ApplyAutoTimeout(target, user.id, totalWarnings, timeoutSucceeds);
    reply := WarningIssued(warningId, totalWarnings, dmDelivered, auto);
  }

  /** A member's timeout state after a warning that brought its count to `totalWarnings`. */
  function StateAfterWarning(s: TimeoutState, totalWarnings: nat, timeoutSucceeds: bool): TimeoutState {
    match AutoTimeout(totalWarnings, true)
    case None => s
    case Some(ms) => AfterTimeout(s, Some(ms), AutoTimeoutReason(totalWarnings), timeoutSucceeds)
  }

  /** The automatic-action step of handleAdd, once the warning is recorded and counted. */
  method ApplyAutoTimeout(target: GuildMember?, userId: string, totalWarnings: nat, timeoutSucceeds: bool)
    returns (auto: AutoAction)
    requires target != null ==> target.userId == userId
    modifies target
    ensures auto == AutoActionFor(AutoTimeout(totalWarnings, target != null), timeoutSucceeds)
    ensures target != null ==> target.state == StateAfterWarning(old(target.state), totalWarnings, timeoutSucceeds)
  {
    auto := NoAutoAction;
    if totalWarnings >= AutoTimeoutThreshold && target != null {
      var timeoutDuration := TimeoutDuration(totalWarnings);
      var ok := target.Timeout(Some(timeoutDuration), AutoTimeoutReason(totalWarnings), timeoutSucceeds);
      auto := if ok then AutoTimedOut(timeoutDuration) else AutoTimeoutFailed;
    }
  }

  /**
   * The automatic timeout never comes early: it needs at least 3 active
   * warnings and a fetched member, and its length is the escalation table's.
   */
  lemma AutoTimeoutOnlyFromThree(totalWarnings: nat, memberResolved: bool)
    ensures AutoTimeout(totalWarnings, memberResolved).Some? <==> totalWarnings >= 3 && memberResolved
    ensures AutoTimeout(totalWarnings, memberResolved).Some? ==>
              AutoTimeout(totalWarnings, memberResolved).value == TimeoutDuration(totalWarnings)
  {
  }

  /**
   * From 3 warnings on, the automatic step of a fetched member is reported
   * as failed when the timeout call throws, and otherwise with the
   * escalation table's duration.
   */
  lemma AutoActionReported(totalWarnings: nat)
    requires totalWarnings >= 3
    ensures AutoActionFor(AutoTimeout(totalWarnings, true), false) == AutoTimeoutFailed
    ensures AutoActionFor(AutoTimeout(totalWarnings, true), true) == AutoTimedOut(TimeoutDuration(totalWarnings))
  {
  }

  /**
   * Guard order: self-warns and bot targets are refused whatever the ranks,
   * and an unfetched member is never refused for rank.
   */
  lemma AddGuardOrder(invokerId: string, invokerRank: int, user: User, targetRank: Option<int>)
    ensures user.id == invokerId ==> AddGuard(invokerId, invokerRank, user, targetRank) == Some(CannotWarnSelf)
    ensures user.id != invokerId && user.bot ==> AddGuard(invokerId, invokerRank, user, targetRank) == Some(CannotWarnBot)
    ensures AddGuard(invokerId, invokerRank, user, None) != Some(TargetOutRanks)
    ensures AddGuard(invokerId, invokerRank, user, targetRank).None? <==>
              user.id != invokerId && !user.bot && (targetRank.None? || targetRank.value < invokerRank)
  {
  }

  /**
   * Escalation through the ledger: with two active warnings, the third
   * brings a 10-minute timeout and a fourth a 30-minute one; removing one of
   * the four brings the count back to three.
   */
  lemma ThirdAndFourthWarnings(t: Table, userId: string, guildId: string, w3: Warning, w4: Warning)
    requires IdsIncreasing(t + [w3, w4])
    requires WarningCount(t, userId, guildId) == 2
    requires w3.userId == userId && w3.guildId == guildId && w3.active
    requires w4.userId == userId && w4.guildId == guildId && w4.active
    ensures AutoTimeout(WarningCount(t + [w3], userId, guildId), true) == Some(10 * MsPerMinute)
    ensures AutoTimeout(WarningCount(t + [w3, w4], userId, guildId), true) == Some(30 * MsPerMinute)
    ensures WarningCount(SoftDelete(t + [w3, w4], IdIs(w3.id)), userId, guildId) == 3
  {
    AddRaisesCount(t, w3, userId, guildId);
    assert t + [w3, w4] == (t + [w3]) + [w4];
    AddRaisesCount(t + [w3], w4, userId, guildId);
    RemoveLowersCount(t + [w3, w4], |t|);
  }

  // ---------------------------------------------------------------------------
  // list

  datatype ListReply =
    | NoActiveWarnings
    | WarningList(total: nat, shown: seq<Warning>, footerTotal: Option<nat>)

  /** handleList's view: the first 10 warnings, and a "Showing 10 of N" footer when N > 10. */
  function ListView(warnings: seq<Warning>): ListReply {
    if |warnings| == 0 then NoActiveWarnings
    else
      var shown := if |warnings| <= ListPageSize then warnings else warnings[..ListPageSize];
      WarningList(|warnings|, shown, if |warnings| > ListPageSize then Some(|warnings|) else None)
  }

  /** handleList. */
  method HandleList(db: Database, userId: string, guildId: string) returns (reply: ListReply)
    requires db.Valid()
    ensures reply == ListView(UserWarnings(db.rows, userId, guildId))
  {
    var warnings := db.GetUserWarnings(userId, guildId);
    if |warnings| == 0 {
      return NoActiveWarnings;
    }
    reply := ListView(warnings);
  }

  /**
   * The list shows the active count, at most the 10 newest active warnings
   * of (user, guild), newest first, and the footer exactly when there are
   * more than 10.
   */
  lemma ListShowsNewestTen(t: Table, userId: string, guildId: string)
    requires Chronological(t)
    ensures ListView(UserWarnings(t, userId, guildId)).NoActiveWarnings? <==> WarningCount(t, userId, guildId) == 0
    ensures var v := ListView(UserWarnings(t, userId, guildId));
            v.WarningList? ==>
              && v.total == WarningCount(t, userId, guildId)
              && |v.shown| == (if v.total <= 10 then v.total else 10)
              && v.shown == UserWarnings(t, userId, guildId)[..|v.shown|]
              && NewestFirst(v.shown)
              && (forall w <- v.shown :: w in t && w.userId == userId && w.guildId == guildId && w.active)
              && (v.footerTotal.Some? <==> v.total > 10)
  {
    UserWarningsSpec(t, userId, guildId);
    var all := UserWarnings(t, userId, guildId);
    var v := ListView(all);
    if v.WarningList? {
      forall w <- v.shown ensures w in all {
        var k :| 0 <= k < |v.shown| && v.shown[k] == w;
        assert all[k] == w;
      }
    }
  }

  // ---------------------------------------------------------------------------
  // remove

  datatype RemoveReply =
    | WarningNotFound
    | NotInThisGuild
    | AlreadyRemoved
    | WarningRemoved(warning: Warning)
    | RemoveFailed  // a statement threw: the generic error reply

  /** The three guards of handleRemove over the row getWarningById found. */
  function RemoveDecision(found: Option<Warning>, guildId: string): RemoveReply {
    match found
    case None => WarningNotFound
    case Some(w) =>
      if w.guildId != guildId then NotInThisGuild
      else if !w.active then AlreadyRemoved
      else WarningRemoved(w)
  }

  /**
   * handleRemove. The `id` option has no bounds, but PostgreSQL refuses a
   * parameter outside the `integer` range, so getWarningById throws and the
   * generic error is sent.
   */
  method HandleRemove(db: Database, guildId: string, warningId: int) returns (reply: RemoveReply)
    requires db.Valid()
    modifies db
    ensures db.Valid() && db.nextId == old(db.nextId)
    ensures !IsInt4(warningId) ==> reply == RemoveFailed
    ensures IsInt4(warningId) ==> reply == RemoveDecision(WarningById(old(db.rows), warningId), guildId)
    ensures reply.WarningRemoved? ==> db.rows == SoftDelete(old(db.rows), IdIs(warningId))
    ensures !reply.WarningRemoved? ==> db.rows == old(db.rows)
  {
    if !IsInt4(warningId) {
      return RemoveFailed;
    }
    var warning := db.GetWarningById(warningId);
    if warning.None? {
      return WarningNotFound;
    }
    if warning.value.guildId != guildId {
      return NotInThisGuild;
    }
    if !warning.value.active {
      return AlreadyRemoved;
    }
    var _ := db.RemoveWarning(warningId);
    reply := WarningRemoved(warning.value);
  }

  /**
   * handleRemove deactivates a warning exactly when one with that id exists,
   * belongs to the invoking guild and is active; each failing guard has its
   * own reply; a removal lowers the owner's active count by one.
   */
  lemma RemoveDecisionSpec(t: Table, guildId: string, warningId: int)
    requires IdsIncreasing(t)
    ensures RemoveDecision(WarningById(t, warningId), guildId) == WarningNotFound <==>
              forall w <- t :: w.id != warningId
    ensures forall i :: 0 <= i < |t| && t[i].id == warningId ==>
              RemoveDecision(WarningById(t, warningId), guildId) ==
                if t[i].guildId != guildId then NotInThisGuild
                else if !t[i].active then AlreadyRemoved
                else WarningRemoved(t[i])
    ensures forall i :: 0 <= i < |t| && t[i].id == warningId && t[i].guildId == guildId && t[i].active ==>
              WarningCount(SoftDelete(t, IdIs(warningId)), t[i].userId, guildId)
              == WarningCount(t, t[i].userId, guildId) - 1
  {
    forall i | 0 <= i < |t| && t[i].id == warningId
      ensures WarningById(t, warningId) == Some(t[i])
    {
      WarningByIdFound(t, i);
    }
    forall i | 0 <= i < |t| && t[i].id == warningId && t[i].guildId == guildId && t[i].active
      ensures WarningCount(SoftDelete(t, IdIs(warningId)), t[i].userId, guildId)
              == WarningCount(t, t[i].userId, guildId) - 1
    {
      RemoveLowersCount(t, i);
    }
    if forall w <- t :: w.id != warningId {
      WarningByIdAbsent(t, warningId);
    }
  }

  // ---------------------------------------------------------------------------
  // clear

  /** handleClear: reports the number of warnings cleared. */
  method HandleClear(db: Database, userId: string, guildId: string) returns (clearedCount: nat)
    requires db.Valid()
    modifies db
    ensures db.Valid() && db.nextId == old(db.nextId)
    ensures db.rows == SoftDelete(old(db.rows), ActiveOfUser(userId, guildId))
    ensures clearedCount == WarningCount(old(db.rows), userId, guildId)
    ensures WarningCount(db.rows, userId, guildId) == 0
  {
    clearedCount := db.ClearUserWarnings(userId, guildId);
  }

  // ---------------------------------------------------------------------------
  // recent

  datatype RecentReply = NoRecentWarnings | RecentList(warnings: seq<Warning>)

  /** `getInteger("limit") || 10`: an omitted (or zero) limit means 10. */
  function RecentLimit(limit: Option<int>): int {
    match limit
    case None => DefaultRecentLimit
    case Some(l) => if l == 0 then DefaultRecentLimit else l
  }

  /** The limit handed to the ledger is 10 when omitted and always within 1..25. */
  lemma RecentLimitBounds(limit: Option<int>)
    requires limit.Some? ==> MinRecentLimit <= limit.value <= MaxRecentLimit
    ensures MinRecentLimit <= RecentLimit(limit) <= MaxRecentLimit
    ensures limit.None? ==> RecentLimit(limit) == 10
    ensures limit.Some? ==> RecentLimit(limit) == limit.value
  {
  }

  /** handleRecent; the platform keeps the option within 1..25. */
  method HandleRecent(db: Database, guildId: string, limit: Option<int>) returns (reply: RecentReply)
    requires db.Valid()
    requires limit.Some? ==> MinRecentLimit <= limit.value <= MaxRecentLimit
    ensures reply == if RecentWarnings(db.rows, guildId, RecentLimit(limit) as nat) == [] then NoRecentWarnings
                     else RecentList(RecentWarnings(db.rows, guildId, RecentLimit(limit) as nat))
    ensures reply.RecentList? ==>
              && |reply.warnings| <= RecentLimit(limit) <= MaxRecentLimit
              && NewestFirst(reply.warnings)
              && forall w <- reply.warnings :: w in db.rows && w.guildId == guildId && w.active
  {
    RecentLimitBounds(limit);
    var warnings := db.GetRecentWarnings(guildId, RecentLimit(limit) as nat);
    if |warnings| == 0 {
      return NoRecentWarnings;
    }
    reply := RecentList(warnings);
  }
}
