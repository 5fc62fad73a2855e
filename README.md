# LiminalBot moderation policy, modelled in Dafny

LiminalBot is a Discord moderation bot. This project models its moderation
policy and proves properties of the model:

- the warning ledger: a PostgreSQL `warnings` table of soft-deletable rows, read and written by the
  `Database` class;
- the `/warn` command: its five subcommands `add`, `list`, `remove`, `clear` and `recent`, and the
  escalating automatic timeout that follows a warning;
- the `/mute` and `/unmute` commands: their guard chains and the timeout they set or lift;
- the automod listener: which messages are screened, the bypass roles, the case-insensitive
  deny-list search, and the ordered clean-up on a hit.

The modules are:

- `Wrappers`: the optional value.
- `LedgerTable`: the rows, the WHERE clauses the bot uses, and the meaning of its statements.
  `SELECT`, `COUNT(*)` and `UPDATE ... SET active = FALSE` are pure functions over the rows in
  insertion order. The module also states the table's invariants and proves the ledger lemmas.
- `Ledger`: the `Database` class. Its fields are the table and the `SERIAL` counter, and each
  method is proved against the functions of `LedgerTable`.
- `Escalation`: the warning-count-to-timeout table.
- `Members`: a guild member whose timeout state the platform changes in place.
- `Warn`, `Mute`, `Unmute` and `Automod`: the commands and the listener.

Everything outside the bot is an input to the model: the clock, Discord's API and the outcome of
each platform call (DM delivered, timeout applied, message deleted). The deny-list is a parameter
of the automod functions, and no concrete term from the source's list is modelled.

In these places the model follows the code:

- `removeWarning` returns the row as the UPDATE left it (`RETURNING *`, so `active` is false),
  not its earlier state.
- `getTimeoutDuration` gives 24 hours for any count outside 3..8, counts below 3 included. Only
  the caller's `totalWarnings >= 3` guard keeps those counts from producing a timeout.
- `/warn add` does not check the reason, so an empty reason is accepted.
- `/warn clear` cannot succeed as written (see Findings). The model uses the evidently intended
  statement.

The bot runs `database.init()` at every start (src/index.js:10), and `init` drops the `warnings`
table and creates it again. Every restart therefore erases all warnings and starts ids at 1
again. The model's `Database` begins in that state: its constructor and `Init` both leave an
empty table with the counter at 1.

## Model

| member | source | states |
|---|---|---|
| LedgerTable.Select | src/lib/database.js:62-68 | a row is selected exactly when it is in the table and satisfies the WHERE clause; never more rows than the table |
| LedgerTable.SoftDelete | src/lib/database.js:95-100 | the UPDATE keeps the table's length, deactivates exactly the matching rows and leaves every other row as it was |
| LedgerTable.Reverse | src/lib/database.js:67 | newest-first order is the insertion order read backwards, position by position |
| LedgerTable.UserWarnings | src/lib/database.js:62-67 | the getUserWarnings query; its meaning is stated by LedgerTable.UserWarningsSpec |
| LedgerTable.WarningCount | src/lib/database.js:79-84 | the getWarningCount query; LedgerTable.SelectLength and LedgerTable.UserWarningsSpec tie it to the rows getUserWarnings returns |
| LedgerTable.RecentWarnings | src/lib/database.js:129-135 | the getRecentWarnings query; its meaning is stated by LedgerTable.RecentWarningsSpec and LedgerTable.RecentWarningsAreNewest |
| LedgerTable.WarningById | src/lib/database.js:146-150 | the getWarningById query; its meaning is stated by LedgerTable.WarningByIdFound and LedgerTable.WarningByIdAbsent |
| LedgerTable.SelectLength | src/lib/database.js:79-85 | COUNT(*) over a clause equals the number of rows SELECT returns for it |
| LedgerTable.UserWarningsSpec | src/lib/database.js:60-74 | getUserWarnings returns exactly the active rows of (user, guild), as many as getWarningCount counts, newest first |
| LedgerTable.SelectChronological | src/lib/database.js:62-67 | filtering a chronological table keeps it chronological |
| LedgerTable.ReverseNewestFirst | src/lib/database.js:67 | a chronological table read backwards is in ORDER BY created_at DESC order |
| LedgerTable.ReverseMembers | src/lib/database.js:67 | ordering newest first neither adds nor drops rows |
| LedgerTable.RecentWarningsSpec | src/lib/database.js:127-141 | getRecentWarnings returns at most `limit` rows, exactly min(limit, active rows of the guild), all active rows of that guild, newest first |
| LedgerTable.RecentWarningsAreNewest | src/lib/database.js:129-135 | every active row of the guild left out of the result is no newer than every row returned |
| LedgerTable.SelectById | src/lib/database.js:21 | with SERIAL ids, selecting by a row's id finds that row and only it |
| LedgerTable.WarningByIdFound | src/lib/database.js:144-155 | getWarningById returns the row with that id, whether active or not |
| LedgerTable.WarningByIdAbsent | src/lib/database.js:144-155 | getWarningById returns nothing for an id no row has |
| LedgerTable.CountAfterSoftDelete | src/lib/database.js:95-100 | after deactivating the rows of one clause, an active-only count drops by exactly the deactivated rows it counted |
| LedgerTable.RemoveLowersCount | src/lib/database.js:93-106 | removing an active warning lowers its owner's active count by exactly one |
| LedgerTable.RemoveFrame | src/lib/database.js:95-100 | removal deactivates the row with that id, changes no other row, and leaves the count of every other (user, guild) unchanged |
| LedgerTable.RemoveIdempotent | src/lib/database.js:95-100 | removing the same warning twice is the same as removing it once |
| LedgerTable.RemoveReturnsRow | src/lib/database.js:95-101 | removeWarning returns the updated row, now inactive, or nothing for an unknown id |
| LedgerTable.ClearLeavesNone | src/lib/database.js:111-116 | after clearing, the (user, guild) has no active warnings |
| LedgerTable.ClearFrame | src/lib/database.js:111-116 | clearing changes no row of another (user, guild) and no other pair's count |
| LedgerTable.ClearChangesCountedRows | src/lib/database.js:111-119 | clearing changes exactly as many rows as the user's active count before the clear |
| LedgerTable.SoftDeleteWellFormed | src/lib/database.js:95-100 | a soft delete keeps ids increasing, timestamps chronological and every id below the counter |
| LedgerTable.ClearSpec | src/lib/database.js:109-124 | the corrected clear keeps the table well formed, changes exactly as many rows as the user's active count, leaves that count at zero and only deactivates rows |
| LedgerTable.SoftDeleteEvolves | src/lib/database.js:95-100 | a soft delete keeps every row and only turns `active` from true to false |
| LedgerTable.EvolvesTransitive | src/lib/database.js:27 | append-and-deactivate-only evolution composes across operations |
| LedgerTable.AddRaisesCount | src/lib/database.js:45-57 | inserting an active warning raises the count of its own (user, guild) by one and of no other pair |
| Ledger.Database.constructor | src/index.js:10 | the store commands see after start-up (init has dropped and recreated the table, database.js:16-29) is well formed and empty, with ids starting at 1 |
| Ledger.Database.Init | src/lib/database.js:11-42 | dropping and recreating the table leaves it empty and restarts ids at 1 |
| Ledger.Database.AddWarning | src/lib/database.js:45-57 | appends one active row stamped with the clock; its id is the counter's value, above every earlier id, and the counter moves on by one; the user's count rises by one; no existing row changes |
| Ledger.Database.GetUserWarnings | src/lib/database.js:60-74 | returns exactly the active rows of (user, guild), newest first, as many as their count |
| Ledger.Database.GetWarningCount | src/lib/database.js:77-90 | returns the number of active rows of (user, guild), equal to the length of getUserWarnings |
| Ledger.Database.RemoveWarning | src/lib/database.js:93-106 | deactivates the row with that id and nothing else, returns the updated row or nothing for an unknown id, and leaves the invariant and the id counter intact |
| Ledger.Database.ClearUserWarnings | src/lib/database.js:109-124 | deactivates every active row of (user, guild), returns how many rows changed (the count before), and leaves the count at zero |
| Ledger.Database.GetRecentWarnings | src/lib/database.js:127-141 | returns at most `limit` (default 10) active rows of the guild, newest first |
| Ledger.Database.GetWarningById | src/lib/database.js:144-155 | returns the row with that id, or nothing exactly when no row has that id |
| Ledger.ClearAsWrittenLeavesWarning | src/lib/database.js:111-119 | as written, clearing a user with one active warning leaves it counted and fails; the corrected statement leaves zero |
| Ledger.ClearUserWarningsAsWritten | src/lib/database.js:111-119 | the statement as written: rejected, so the table is unchanged and the call fails; Ledger.ClearAsWrittenLeavesWarning shows the consequence |
| Escalation.TimeoutDuration | src/commands/Moderation/warn.js:461-473 | getTimeoutDuration: the exact-key lookup that falls back to the 8-warning entry for any other count; its meaning is stated by the Escalation.TimeoutDuration* lemmas below |
| Escalation.TimeoutDurationIsThresholdPolicy | src/commands/Moderation/warn.js:461-473 | for 3 or more warnings, the duration is the minutes of the highest tier reached (3: 10, 4: 30, 5: 60, 6: 360, 7: 720, 8: 1440) in milliseconds |
| Escalation.TimeoutDurationStrictlyIncreasing | src/commands/Moderation/warn.js:463-470 | each further warning from 3 to 8 brings a strictly longer timeout |
| Escalation.TimeoutDurationSaturates | src/commands/Moderation/warn.js:472 | from 8 warnings on the timeout stays at 24 hours |
| Escalation.TimeoutDurationBounds | src/commands/Moderation/warn.js:461-473 | every duration lies between 10 minutes and 24 hours |
| Escalation.TimeoutDurationMonotone | src/commands/Moderation/warn.js:461-473 | from 3 warnings on, more warnings never mean a shorter timeout |
| Members.AfterTimeout | src/commands/Moderation/mute.js:93-94 | the effect of `member.timeout(d, reason)`: a duration times the member out, null lifts the timeout, a call that throws changes nothing; Members.GuildMember.Timeout states it of the member |
| Members.GuildMember.constructor | src/commands/Moderation/mute.js:63 | a fetched member carries its id, highest role, moderatability and timeout state |
| Members.GuildMember.Timeout | src/commands/Moderation/mute.js:93-94 | a successful call with a duration leaves the member timed out, with none lifts the timeout; a failed call changes nothing |
| Mute.DurationOrDefault | src/commands/Moderation/mute.js:46 | an omitted duration is 10 minutes (Mute.DefaultsAccepted) |
| Mute.ReasonOrDefault | src/commands/Moderation/mute.js:47-48 | an omitted reason is "No reason provided" (Mute.DefaultsAccepted, Unmute.DefaultReasonUsed) |
| Mute.MinutesToMs | src/commands/Moderation/mute.js:93 | `duration * 60 * 1000`; Mute.MuteUser bounds the result to 1 minute..7 days |
| Mute.MuteGuard | src/commands/Moderation/mute.js:67-90 | the guard chain of muteUser; its meaning is stated by Mute.MuteGuardPasses, Mute.MuteGuardOrder and Mute.OwnerExemption |
| Mute.MuteUser | src/commands/Moderation/mute.js:61-147 | a failed fetch is the generic error; otherwise the first failing guard decides the reply and the member is untouched; when all pass, the member is timed out for minutes*60000 ms, always within 1 minute..7 days |
| Mute.MuteGuardPasses | src/commands/Moderation/mute.js:67-90 | the guards pass exactly when the target is moderatable, the moderator outranks it or owns the guild, and the duration is in 1..10080 |
| Mute.MuteGuardOrder | src/commands/Moderation/mute.js:67-90 | a non-moderatable target is reported first; a rank failure only for a moderatable target; a duration failure only once rank passed |
| Mute.OwnerExemption | src/commands/Moderation/mute.js:74-83 | the guild owner passes the rank check against any target; anyone else with an equal rank fails it |
| Mute.DefaultsAccepted | src/commands/Moderation/mute.js:44-59 | omitted options give 10 minutes, which passes the duration guard (600000 ms), and "No reason provided" |
| Unmute.UnmuteUser | src/commands/Moderation/unmute.js:51-104 | a failed fetch is the generic error; a member not timed out gets "not timed out" and is untouched; otherwise the timeout is lifted, or the failure reported with the member unchanged |
| Unmute.DefaultReasonUsed | src/commands/Moderation/unmute.js:36-49 | an omitted reason becomes "No reason provided", as for mute |
| Warn.AddGuard | src/commands/Moderation/warn.js:114-144 | the guard chain of handleAdd; its meaning is stated by Warn.AddGuardOrder |
| Warn.AutoTimeout | src/commands/Moderation/warn.js:238-240 | whether and how long the automatic timeout is; its meaning is stated by Warn.AutoTimeoutOnlyFromThree |
| Warn.HandleAdd | src/commands/Moderation/warn.js:109-269 | a failing guard records nothing and touches no member; otherwise exactly one active row is appended and stays recorded whatever the DM and the automatic timeout do, the reported total is the new active count (one more than before), the DM outcome is reported, and the automatic timeout is applied and reported as the escalation table says; the member rank-checked and timed out is the warned user, timed out with "Automatic timeout: N warnings" |
| Warn.ApplyAutoTimeout | src/commands/Moderation/warn.js:237-259 | from 3 warnings on, the fetched member of the warned user is timed out for the table's duration and the outcome is reported; below 3 nothing happens |
| Warn.AutoTimeoutOnlyFromThree | src/commands/Moderation/warn.js:238-244 | an automatic timeout happens exactly when there are at least 3 active warnings and the member was fetched, and lasts the table's duration |
| Warn.AutoActionReported | src/commands/Moderation/warn.js:238-258 | from 3 warnings on, a failed automatic timeout is reported as failed, and a successful one with the escalation table's duration (that the warning stays recorded either way is Warn.HandleAdd's contract) |
| Warn.AddGuardOrder | src/commands/Moderation/warn.js:114-144 | self-warns and bot targets are refused whatever the ranks; an unfetched target is never refused for rank; the guards pass exactly when none applies |
| Warn.ThirdAndFourthWarnings | src/commands/Moderation/warn.js:146-244 | with two active warnings the third brings a 10-minute timeout and a fourth a 30-minute one; removing one of them brings the count back to three |
| Warn.ListView | src/commands/Moderation/warn.js:280-311 | what handleList shows of the warnings; its meaning is stated by Warn.ListShowsNewestTen |
| Warn.HandleList | src/commands/Moderation/warn.js:271-321 | the reply is the list view of the user's active warnings, newest first |
| Warn.ListShowsNewestTen | src/commands/Moderation/warn.js:280-311 | "no warnings" exactly when the count is zero; otherwise the total is the active count, the 10 newest (or all) are shown newest first, and the footer appears exactly when there are more than 10 |
| Warn.RemoveDecision | src/commands/Moderation/warn.js:330-349 | the three guards of handleRemove over the row found; its meaning is stated by Warn.RemoveDecisionSpec |
| Warn.HandleRemove | src/commands/Moderation/warn.js:323-384 | an id outside PostgreSQL's `integer` range gets the generic error; otherwise the reply is decided by the row found by id; only a found, same-guild, active warning is deactivated, and every other reply leaves the ledger unchanged |
| Warn.RemoveDecisionSpec | src/commands/Moderation/warn.js:327-352 | "not found" exactly when no row has the id; otherwise wrong guild, already removed or removed in that order; a removal lowers the owner's count by one |
| Warn.HandleClear | src/commands/Moderation/warn.js:386-413 | reports the number of active warnings the user had, and leaves none |
| Warn.RecentLimit | src/commands/Moderation/warn.js:416 | the limit option, with an omitted or zero value read as 10; its meaning is stated by Warn.RecentLimitBounds |
| Warn.RecentLimitBounds | src/commands/Moderation/warn.js:416 | the limit is 10 when omitted, the given value otherwise, and always within 1..25 |
| Warn.HandleRecent | src/commands/Moderation/warn.js:415-459 | "no recent warnings" exactly when the guild has none; otherwise at most `limit` active rows of the guild, newest first |
| Automod.FirstHit | src/listeners/automod.js:30-33 | the index of the first deny-list term found in the content: no earlier term is found, and the one at that index is |
| Automod.ToLowerIdempotent | src/listeners/automod.js:30 | lowercasing twice is lowercasing once |
| Automod.HitsIgnoresCase | src/listeners/automod.js:30-33 | lowercasing the content or the term first does not change whether it is found |
| Automod.FindTermSpec | src/listeners/automod.js:31-33 | find returns nothing exactly when no term is found; otherwise the first term in list order that is found |
| Automod.FindTerm | src/listeners/automod.js:31-33 | `bannedWords.find(...)`; its meaning is stated by Automod.FindTermSpec |
| Automod.HasBypassRole | src/listeners/automod.js:40-45 | whether the member holds a role named Moderator, Admin or Staff; its meaning is stated by Automod.BypassSpec |
| Automod.Screen | src/listeners/automod.js:22-38 | the decision of `run`; its meaning is stated by Automod.ScreenSpec and Automod.BypassSpec |
| Automod.ScreenSpec | src/listeners/automod.js:22-38 | with non-empty terms, a message is filtered exactly when its author is not a bot, it was sent in a guild, it is not empty, it has no bypass role and some term is found; the reported term is the first |
| Automod.BypassSpec | src/listeners/automod.js:40-45 | a member with a bypass role is never filtered; a missing member never bypasses; a Moderator's message is bypassed |
| Automod.UpperCaseHit | src/listeners/automod.js:30-36 | an upper-case occurrence of a lower-case term is caught and reported |
| Automod.WarningEffects | src/listeners/automod.js:47-87 | what sendWarning does for each outcome of its three platform calls; its meaning is stated by Automod.WarningEffectsSpec |
| Automod.WarningEffectsSpec | src/listeners/automod.js:47-87 | nothing happens unless the delete succeeds, and the delete comes first; a delivered DM ends the sequence; if the DM fails, a channel notice is posted and its deletion scheduled after 10 s; a failing step ends the sequence |
| Automod.SendWarning | src/listeners/automod.js:47-87 | the steps taken are exactly WarningEffects of the three outcomes |
| Automod.OnMessage | src/listeners/automod.js:22-38 | the verdict is the screening result; a message that is not filtered has no effects, and a filtered one gets exactly sendWarning's effects (delete, then the DM or the channel notice with its scheduled deletion) |

## Left out

- Driver and network failures of the database calls, and the generic error replies they lead to,
  are not modelled. Two failures that follow from the data are handled: `/warn clear` (see
  Findings) and the out-of-range id in Warn.HandleRemove.
- Ledger.Database.AddWarning: ids are unbounded. The source's `SERIAL` is a 32-bit `integer`
  and the INSERT throws once 2^31-1 ids are used; that overflow is not modelled.
- Ledger.Database.GetWarningById, Ledger.Database.RemoveWarning: these take any integer id. In
  the source, an id outside -2^31..2^31-1 makes the statement throw. The model returns nothing
  and changes nothing instead. Warn.HandleRemove, their only caller, checks the range first and
  gives the generic error, as the source does.
- Concurrency: commands run one at a time against the ledger.
- Reply and editReply failures, the embeds, colours and message texts are not modelled. The model
  keeps the reply's kind and the values it reports.
- The index `idx_warnings_user_guild` is not modelled; it changes speed, not results.
- Timeout expiry over time is not modelled. A member stays timed out until a later timeout call
  changes that.
- The 10-second `setTimeout` that deletes the automod channel notice is recorded as scheduled.
  Its later run, and its swallowed failure, are not modelled.
- Only the ASCII letters A-Z are lowercased; Unicode case mapping is not modelled.
- The concrete deny-list terms are not modelled; the list is a parameter.
- Ledger.Database.AddWarning requires the clock to be no earlier than every stored `created_at`,
  so that the table's order is chronological. The database itself stamps `NOW()`.
- LedgerTable.UserWarningsSpec, LedgerTable.RecentWarningsSpec, Ledger.Database.GetUserWarnings,
  Ledger.Database.GetRecentWarnings: ORDER BY created_at DESC leaves the order of equal timestamps
  open. With LIMIT it also leaves open which tied rows fall inside the limit. The model fixes both
  to newest-inserted first, one of the choices PostgreSQL may make.
- Warn.HandleRecent requires the limit to lie within 1..25, the bounds the slash-command option
  declares and the platform enforces. An omitted or zero limit means 10, as `|| 10` does.
- The slash and prefix parsing of options (`getUser`, `args.pick`) is not modelled beyond the
  defaults they supply.
- The chat-input subcommand dispatch and its "Unknown subcommand" reply are not modelled.

## Findings

| source | as written | input that shows it | evidently intended | confidence | as-written member | corrected member |
|---|---|---|---|---|---|---|
| src/lib/database.js:111-119 | `UPDATE ... RETURNING COUNT(*)`: PostgreSQL refuses aggregate functions in RETURNING, so the statement fails. No warning is cleared and `/warn clear` always replies with its error. | a user with one active warning, then `/warn clear` | deactivate the user's active warnings and return how many rows changed (`RETURNING *`, then `result.length`) | not executed | Ledger.ClearAsWrittenLeavesWarning | Ledger.Database.ClearUserWarnings |
