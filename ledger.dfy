/**
 * The warning ledger (`Database` in src/lib/database.js): the `warnings`
 * table held as a sequence of rows plus the counter behind `id SERIAL`.
 * Rows are only appended and soft-deleted; `created_at` comes from a
 * clock value the caller supplies.
 */
module Ledger {
  import opened Wrappers
  import opened LedgerTable

  /** The ledger's only state: the table and the next SERIAL value. */
  class Database {
    var rows: Table
    var nextId: nat

    ghost predicate Valid()
      reads this
    {
      WellFormed(rows, nextId)
    }

    /** A store whose table has just been created. */
    constructor ()
      ensures Valid()
      ensures rows == [] && nextId == 1
    {
      rows := [];
      nextId := 1;
    }

    /** init: DROP TABLE IF EXISTS, then CREATE TABLE; the SERIAL restarts at 1. */
    method Init()
      modifies this
      ensures Valid()
      ensures rows == [] && nextId == 1
    {
      rows := [];
      nextId := 1;
    }

    /**
     * addWarning: INSERT one active row with the next id and the clock's
     * time, RETURNING id, created_at.
     */
    method AddWarning(userId: string, guildId: string, moderatorId: string, reason: string, now: nat)
      returns (id: nat, createdAt: nat)
      requires Valid()
      requires forall w <- rows :: w.createdAt <= now
      modifies this
      ensures Valid()
      ensures id == old(nextId) && createdAt == now
      ensures nextId == old(nextId) + 1
      ensures forall w <- old(rows) :: w.id < id
      ensures rows == old(rows) + [Warning(id, userId, guildId, moderatorId, reason, createdAt, true)]
      ensures Evolves(old(rows), rows)
      ensures WarningCount(rows, userId, guildId) == WarningCount(old(rows), userId, guildId) + 1
    {
      id, createdAt := nextId, now;
      var w := Warning(id, userId, guildId, moderatorId, reason, createdAt, true);
      AddRaisesCount(rows, w, userId, guildId);
      rows := rows + [w];
      nextId := nextId + 1;
    }

    /** getUserWarnings: the active rows of (user, guild), newest first. */
    method GetUserWarnings(userId: string, guildId: string) returns (r: Table)
      requires Valid()
      ensures r == UserWarnings(rows, userId, guildId)
      ensures |r| == WarningCount(rows, userId, guildId)
      ensures forall w :: w in r <==> w in rows && w.userId == userId && w.guildId == guildId && w.active
      ensures NewestFirst(r)
    {
      UserWarningsSpec(rows, userId, guildId);
      r := UserWarnings(rows, userId, guildId);
    }

    /** getWarningCount: the number of active rows of (user, guild). */
    method GetWarningCount(userId: string, guildId: string) returns (n: nat)
      requires Valid()
      ensures n == WarningCount(rows, userId, guildId)
      ensures n == |UserWarnings(rows, userId, guildId)|
    {
      UserWarningsSpec(rows, userId, guildId);
      n := WarningCount(rows, userId, guildId);
    }

    /**
     * removeWarning: UPDATE ... SET active = FALSE WHERE id = $1
     * RETURNING *; gives the updated row, or nothing for an unknown id.
     */
    method RemoveWarning(warningId: int) returns (updated: Option<Warning>)
      requires Valid()
      modifies this
      ensures Valid()
      ensures nextId == old(nextId)
      ensures rows == SoftDelete(old(rows), IdIs(warningId))
      ensures forall i :: 0 <= i < |rows| && old(rows)[i].id != warningId ==> rows[i] == old(rows)[i]
      ensures forall i :: 0 <= i < |rows| && old(rows)[i].id == warningId ==>
                updated == Some(old(rows)[i].(active := false))
      ensures (forall w <- old(rows) :: w.id != warningId) ==> updated == None
      ensures Evolves(old(rows), rows)
    {
      SoftDeleteWellFormed(rows, IdIs(warningId), nextId);
      RemoveFrame(rows, warningId);
      RemoveReturnsRow(rows, warningId);
      SoftDeleteEvolves(rows, IdIs(warningId));
      rows := SoftDelete(rows, IdIs(warningId));
      updated := WarningById(rows, warningId);
    }

    /**
     * clearUserWarnings: UPDATE ... SET active = FALSE for every active row
     * of (user, guild); returns how many rows it changed.
     */
    method ClearUserWarnings(userId: string, guildId: string) returns (cleared: nat)
      requires Valid()
      modifies this
      ensures Valid()
      ensures nextId == old(nextId)
      ensures rows == SoftDelete(old(rows), ActiveOfUser(userId, guildId))
      ensures cleared == ChangedRows(old(rows), rows)
      ensures cleared == WarningCount(old(rows), userId, guildId)
      ensures WarningCount(rows, userId, guildId) == 0
      ensures Evolves(old(rows), rows)
    {
      ClearSpec(rows, userId, guildId, nextId);
      cleared := |Select(rows, ActiveOfUser(userId, guildId))|;
      rows := SoftDelete(rows, ActiveOfUser(userId, guildId));
    }

    /** getRecentWarnings: the newest `limit` (default 10) active rows of the guild. */
    method GetRecentWarnings(guildId: string, limit: nat := 10) returns (r: Table)
      requires Valid()
      ensures r == RecentWarnings(rows, guildId, limit)
      ensures |r| <= limit
      ensures forall w <- r :: w in rows && w.guildId == guildId && w.active
      ensures NewestFirst(r)
    {
      RecentWarningsSpec(rows, guildId, limit);
      r := RecentWarnings(rows, guildId, limit);
    }

    /** getWarningById: the row with that id, active or not. */
    method GetWarningById(warningId: int) returns (r: Option<Warning>)
      requires Valid()
      ensures r == WarningById(rows, warningId)
      ensures forall i :: 0 <= i < |rows| && rows[i].id == warningId ==> r == Some(rows[i])
      ensures (forall w <- rows :: w.id != warningId) <==> r == None
    {
      forall i | 0 <= i < |rows| && rows[i].id == warningId
        ensures WarningById(rows, warningId) == Some(rows[i])
      {
        WarningByIdFound(rows, i);
      }
      if forall w <- rows :: w.id != warningId {
        WarningByIdAbsent(rows, warningId);
      }
      r := WarningById(rows, warningId);
    }
  }

  // ---------------------------------------------------------------------------
  // clearUserWarnings as the source writes it

  /**
   * The statement in clearUserWarnings ends in `RETURNING COUNT(*)`.
   * PostgreSQL refuses aggregate functions in RETURNING, so the UPDATE is
   * rejected as a whole: the table is left as it was and the call throws
   * (None here), which handleClear reports as an error.
   */
  function ClearUserWarningsAsWritten(t: Table, userId: string, guildId: string): (Table, Option<nat>) {
    (t, None)
  }

  /**
   * As written, clearing a user with one active warning leaves that warning
   * counted, where the corrected ClearUserWarnings leaves a count of zero.
   */
  lemma ClearAsWrittenLeavesWarning()
    ensures var t := [Warning(1, "user", "guild", "moderator", "spam", 0, true)];
            && WarningCount(ClearUserWarningsAsWritten(t, "user", "guild").0, "user", "guild") == 1
            && ClearUserWarningsAsWritten(t, "user", "guild").1 == None
            && WarningCount(SoftDelete(t, ActiveOfUser("user", "guild")), "user", "guild") == 0
  {
    var t := [Warning(1, "user", "guild", "moderator", "spam", 0, true)];
    assert t[..0] == [];
    ClearLeavesNone(t, "user", "guild");
  }
}
