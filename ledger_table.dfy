/**
 * The `warnings` table of the moderation ledger and the meaning of the SQL
 * statements the bot issues against it, as pure functions over the sequence
 * of rows in insertion order.
 *
 * A WHERE clause is a `Where` value; `SELECT ... WHERE c` is `Select`,
 * `SELECT COUNT(*) ... WHERE c` is `Count`, and
 * `UPDATE warnings SET active = FALSE WHERE c` is `SoftDelete`.
 */
module LedgerTable {
  import opened Wrappers

  /** One row: `id SERIAL`, the three TEXT columns, `created_at`, `active`. */
  datatype Warning = Warning(
    id: nat,
    userId: string,
    guildId: string,
    moderatorId: string,
    reason: string,
    createdAt: nat,
    active: bool)

  type Table = seq<Warning>

  /** The WHERE clauses the ledger uses. */
  datatype Where =
    | IdIs(id: int)                                  // id = $1
    | ActiveOfUser(userId: string, guildId: string)  // user_id = $1 AND guild_id = $2 AND active = TRUE
    | ActiveInGuild(guildId: string)                 // guild_id = $1 AND active = TRUE

  predicate Matches(w: Warning, c: Where) {
    match c
    case IdIs(id) => w.id == id
    case ActiveOfUser(u, g) => w.userId == u && w.guildId == g && w.active
    case ActiveInGuild(g) => w.guildId == g && w.active
  }

  /** A clause that only ever selects active rows. */
  predicate OnlyActive(c: Where) {
    c.ActiveOfUser? || c.ActiveInGuild?
  }

  /** The range of PostgreSQL's `integer`, the column type behind `id SERIAL`. */
  const MinInt4: int := -0x8000_0000
  const MaxInt4: int := 0x7FFF_FFFF

  /** A value PostgreSQL accepts as an `integer` parameter. */
  predicate IsInt4(n: int) {
    MinInt4 <= n <= MaxInt4
  }

  // ---------------------------------------------------------------------------
  // Invariants of the table

  /** SERIAL ids are handed out in increasing order, so they are unique. */
  ghost predicate IdsIncreasing(t: Table) {
    forall i, j :: 0 <= i < j < |t| ==> t[i].id < t[j].id
  }

  /** Rows are inserted with a non-decreasing `created_at`. */
  ghost predicate Chronological(t: Table) {
    forall i, j :: 0 <= i < j < |t| ==> t[i].createdAt <= t[j].createdAt
  }

  /** The order of `ORDER BY created_at DESC`. */
  ghost predicate NewestFirst(s: Table) {
    forall i, j :: 0 <= i < j < |s| ==> s[i].createdAt >= s[j].createdAt
  }

  /** The table together with its id counter, as the ledger keeps them. */
  ghost predicate WellFormed(t: Table, nextId: nat) {
    && 1 <= nextId
    && IdsIncreasing(t)
    && Chronological(t)
    && (forall w <- t :: w.id < nextId)
  }

  /**
   * `after` is a later state of `before`: rows are only appended, and an
   * existing row may only have its `active` flag turned from true to false.
   */
  ghost predicate Evolves(before: Table, after: Table) {
    && |before| <= |after|
    && forall i :: 0 <= i < |before| ==>
         && after[i].(active := before[i].active) == before[i]
         && (after[i].active ==> before[i].active)
  }

  // ---------------------------------------------------------------------------
  // SQL primitives

  /** `SELECT * FROM warnings WHERE c`, in insertion order. */
  function Select(t: Table, c: Where): (r: Table)
    ensures |r| <= |t|
    ensures forall w :: w in r <==> w in t && Matches(w, c)
  {
    if t == [] then []
    else
      assert t == t[..|t| - 1] + [t[|t| - 1]];
      Select(t[..|t| - 1], c) + (if Matches(t[|t| - 1], c) then [t[|t| - 1]] else [])
  }

  /** `SELECT COUNT(*) FROM warnings WHERE c`. */
  function Count(t: Table, c: Where): nat {
    if t == [] then 0
    else Count(t[..|t| - 1], c) + (if Matches(t[|t| - 1], c) then 1 else 0)
  }

  /** `UPDATE warnings SET active = FALSE WHERE c`. */
  function SoftDelete(t: Table, c: Where): (r: Table)
    ensures |r| == |t|
    ensures forall i :: 0 <= i < |t| ==>
              r[i] == if Matches(t[i], c) then t[i].(active := false) else t[i]
  {
    if t == [] then []
    else
      var last := t[|t| - 1];
      SoftDelete(t[..|t| - 1], c) + [if Matches(last, c) then last.(active := false) else last]
  }

  /** Newest first, given rows in insertion order. */
  function Reverse(s: Table): (r: Table)
    ensures |r| == |s|
    ensures forall i :: 0 <= i < |s| ==> r[i] == s[|s| - 1 - i]
  {
    if s == [] then [] else [s[|s| - 1]] + Reverse(s[..|s| - 1])
  }

  /** The number of positions at which two equally long tables differ. */
  function ChangedRows(before: Table, after: Table): nat
    requires |before| == |after|
  {
    if before == [] then 0
    else
      ChangedRows(before[..|before| - 1], after[..|after| - 1])
      + (if before[|before| - 1] != after[|after| - 1] then 1 else 0)
  }

  // ---------------------------------------------------------------------------
  // The ledger's queries

  /** getUserWarnings: active rows of (user, guild), ORDER BY created_at DESC. */
  function UserWarnings(t: Table, userId: string, guildId: string): Table {
    Reverse(Select(t, ActiveOfUser(userId, guildId)))
  }

  /** getWarningCount: COUNT(*) of the active rows of (user, guild). */
  function WarningCount(t: Table, userId: string, guildId: string): nat {
    Count(t, ActiveOfUser(userId, guildId))
  }

  /** getRecentWarnings: active rows of the guild, newest first, LIMIT limit. */
  function RecentWarnings(t: Table, guildId: string, limit: nat): Table {
    var s := GuildWarnings(t, guildId);
    if |s| <= limit then s else s[..limit]
  }

  /** getWarningById: `result[0]` of `SELECT * WHERE id = $1`, active or not. */
  function WarningById(t: Table, id: int): Option<Warning> {
    var s := Select(t, IdIs(id));
    if s == [] then None else Some(s[0])
  }

  // ---------------------------------------------------------------------------
  // Lemmas: SELECT and COUNT agree

  lemma {:induction false} SelectLength(t: Table, c: Where)
    ensures |Select(t, c)| == Count(t, c)
  {
    if t != [] {
      SelectLength(t[..|t| - 1], c);
    }
  }

  lemma CountAppend(t: Table, w: Warning, c: Where)
    ensures Count(t + [w], c) == Count(t, c) + (if Matches(w, c) then 1 else 0)
  {
    assert (t + [w])[..|t|] == t;
  }

  lemma SelectAppend(t: Table, w: Warning, c: Where)
    ensures Select(t + [w], c) == Select(t, c) + (if Matches(w, c) then [w] else [])
  {
    assert (t + [w])[..|t|] == t;
  }

  lemma SoftDeleteAppend(t: Table, w: Warning, c: Where)
    ensures SoftDelete(t + [w], c) == SoftDelete(t, c) + [if Matches(w, c) then w.(active := false) else w]
  {
    assert (t + [w])[..|t|] == t;
  }

  /** A clause no row satisfies counts zero. */
  lemma {:induction false} CountNoMatch(t: Table, c: Where)
    requires forall i :: 0 <= i < |t| ==> !Matches(t[i], c)
    ensures Count(t, c) == 0
  {
    if t != [] {
      CountNoMatch(t[..|t| - 1], c);
    }
  }

  /** A clause no row satisfies selects nothing. */
  lemma SelectNoMatch(t: Table, c: Where)
    requires forall i :: 0 <= i < |t| ==> !Matches(t[i], c)
    ensures Select(t, c) == []
  {
  }

  /** Two tables that agree row by row on a clause give the same count. */
  lemma {:induction false} CountPointwise(t: Table, t': Table, c: Where)
    requires |t| == |t'|
    requires forall i :: 0 <= i < |t| ==> (Matches(t[i], c) <==> Matches(t'[i], c))
    ensures Count(t, c) == Count(t', c)
  {
    if t != [] {
      CountPointwise(t[..|t| - 1], t'[..|t'| - 1], c);
    }
  }

  /** A filter of a chronological table is chronological. */
  lemma {:induction false} SelectChronological(t: Table, c: Where)
    requires Chronological(t)
    ensures Chronological(Select(t, c))
  {
    if t != [] {
      var init, last := t[..|t| - 1], t[|t| - 1];
      SelectChronological(init, c);
      var s := Select(init, c);
      forall k | 0 <= k < |s|
        ensures s[k].createdAt <= last.createdAt
      {
        assert s[k] in init;
      }
    }
  }

  // ---------------------------------------------------------------------------
  // Lemmas: the queries

  /**
   * getUserWarnings returns exactly the active rows of (user, guild), newest
   * first, and as many of them as getWarningCount reports.
   */
  lemma UserWarningsSpec(t: Table, userId: string, guildId: string)
    requires Chronological(t)
    ensures |UserWarnings(t, userId, guildId)| == WarningCount(t, userId, guildId)
    ensures forall w :: w in UserWarnings(t, userId, guildId) <==>
              w in t && w.userId == userId && w.guildId == guildId && w.active
    ensures NewestFirst(UserWarnings(t, userId, guildId))
  {
    var c := ActiveOfUser(userId, guildId);
    SelectLength(t, c);
    SelectChronological(t, c);
    var s := Select(t, c);
    var r := Reverse(s);
    forall w ensures w in r <==> w in s {
      if w in s {
        var k :| 0 <= k < |s| && s[k] == w;
        assert r[|s| - 1 - k] == w;
      }
    }
  }

  /** The active rows of a guild, newest first, before LIMIT applies. */
  function GuildWarnings(t: Table, guildId: string): Table {
    Reverse(Select(t, ActiveInGuild(guildId)))
  }

  /** Reversing a chronological table puts it newest first. */
  lemma ReverseNewestFirst(s: Table)
    requires Chronological(s)
    ensures NewestFirst(Reverse(s))
  {
  }

  /** Membership is not changed by reversing. */
  lemma ReverseMembers(s: Table)
    ensures forall w :: w in Reverse(s) <==> w in s
  {
    var r := Reverse(s);
    forall w | w in s ensures w in r {
      var k :| 0 <= k < |s| && s[k] == w;
      assert r[|s| - 1 - k] == w;
    }
  }

  /**
   * getRecentWarnings returns at most `limit` active rows of the guild,
   * newest first, and all of them when the guild has no more than `limit`.
   */
  lemma RecentWarningsSpec(t: Table, guildId: string, limit: nat)
    requires Chronological(t)
    ensures |RecentWarnings(t, guildId, limit)| <= limit
    ensures |RecentWarnings(t, guildId, limit)| == if Count(t, ActiveInGuild(guildId)) <= limit
                                                    then Count(t, ActiveInGuild(guildId)) else limit
    ensures forall w <- RecentWarnings(t, guildId, limit) :: w in t && w.guildId == guildId && w.active
    ensures NewestFirst(RecentWarnings(t, guildId, limit))
  {
    var c := ActiveInGuild(guildId);
    SelectLength(t, c);
    SelectChronological(t, c);
    ReverseNewestFirst(Select(t, c));
    ReverseMembers(Select(t, c));
    var all := GuildWarnings(t, guildId);
    var r := RecentWarnings(t, guildId, limit);
    assert r == all[..|r|];
    forall w <- r ensures w in all {
      var k :| 0 <= k < |r| && r[k] == w;
      assert all[k] == w;
    }
  }

  /**
   * The rows getRecentWarnings leaves out are no newer than any row it
   * returns: it returns the newest ones.
   */
  lemma RecentWarningsAreNewest(t: Table, guildId: string, limit: nat)
    requires Chronological(t)
    ensures forall w <- t :: w.guildId == guildId && w.active && w !in RecentWarnings(t, guildId, limit) ==>
              forall v <- RecentWarnings(t, guildId, limit) :: v.createdAt >= w.createdAt
  {
    var c := ActiveInGuild(guildId);
    SelectChronological(t, c);
    ReverseNewestFirst(Select(t, c));
    ReverseMembers(Select(t, c));
    var all := GuildWarnings(t, guildId);
    var r := RecentWarnings(t, guildId, limit);
    assert r == all[..|r|];
    forall w <- t, v <- r | w.guildId == guildId && w.active && w !in r
      ensures v.createdAt >= w.createdAt
    {
      assert w in all;
      var k :| 0 <= k < |all| && all[k] == w;
      var m :| 0 <= m < |r| && r[m] == v;
      assert k >= |r|;
      assert all[m] == v;
    }
  }

  /** With unique ids, the rows carrying a row's id are that row alone. */
  lemma {:induction false} SelectById(t: Table, i: nat)
    requires IdsIncreasing(t)
    requires i < |t|
    ensures Select(t, IdIs(t[i].id)) == [t[i]]
  {
    var init, last := t[..|t| - 1], t[|t| - 1];
    if i == |t| - 1 {
      SelectNoMatch(init, IdIs(last.id));
    } else {
      SelectById(init, i);
    }
  }

  /** getWarningById finds a row whether or not it is active. */
  lemma WarningByIdFound(t: Table, i: nat)
    requires IdsIncreasing(t)
    requires i < |t|
    ensures WarningById(t, t[i].id) == Some(t[i])
  {
    SelectById(t, i);
  }

  /** getWarningById gives nothing for an id no row has. */
  lemma WarningByIdAbsent(t: Table, id: int)
    requires forall w <- t :: w.id != id
    ensures WarningById(t, id) == None
  {
    if Select(t, IdIs(id)) != [] {
      assert Select(t, IdIs(id))[0] in Select(t, IdIs(id));
    }
  }

  // ---------------------------------------------------------------------------
  // Lemmas: soft deletion

  /**
   * Soft-deleting the rows of clause `d` lowers the count of an active-only
   * clause `c` by exactly the rows that satisfy both.
   */
  lemma {:induction false} CountAfterSoftDelete(t: Table, d: Where, c: Where)
    requires OnlyActive(c)
    ensures Count(SoftDelete(t, d), c) + Count(Select(t, d), c) == Count(t, c)
  {
    if t != [] {
      var init, last := t[..|t| - 1], t[|t| - 1];
      assert t == init + [last];
      CountAfterSoftDelete(init, d, c);
      SoftDeleteAppend(init, last, d);
      SelectAppend(init, last, d);
      var last' := if Matches(last, d) then last.(active := false) else last;
      CountAppend(SoftDelete(init, d), last', c);
      CountAppend(init, last, c);
      if Matches(last, d) {
        assert !Matches(last', c);
        assert Select(t, d) == Select(init, d) + [last];
        CountAppend(Select(init, d), last, c);
        assert Count(Select(t, d), c) == Count(Select(init, d), c) + (if Matches(last, c) then 1 else 0);
        assert Count(SoftDelete(t, d), c) == Count(SoftDelete(init, d), c);
      } else {
        assert Select(t, d) == Select(init, d);
        assert Count(SoftDelete(t, d), c) == Count(SoftDelete(init, d), c) + (if Matches(last, c) then 1 else 0);
      }
    }
  }

  /** Removing an active warning of (user, guild) lowers its count by one. */
  lemma RemoveLowersCount(t: Table, i: nat)
    requires IdsIncreasing(t)
    requires i < |t|
    requires t[i].active
    ensures WarningCount(SoftDelete(t, IdIs(t[i].id)), t[i].userId, t[i].guildId)
            == WarningCount(t, t[i].userId, t[i].guildId) - 1
  {
    var c := ActiveOfUser(t[i].userId, t[i].guildId);
    CountAfterSoftDelete(t, IdIs(t[i].id), c);
    SelectById(t, i);
    assert Count([t[i]], c) == 1 by {
      assert [t[i]][..0] == [];
    }
  }

  /** removeWarning touches the row with that id and no other. */
  lemma RemoveFrame(t: Table, id: int)
    requires IdsIncreasing(t)
    ensures forall j :: 0 <= j < |t| && t[j].id != id ==> SoftDelete(t, IdIs(id))[j] == t[j]
    ensures forall j :: 0 <= j < |t| && t[j].id == id ==> SoftDelete(t, IdIs(id))[j] == t[j].(active := false)
    ensures forall u, g :: (forall w <- t :: w.id == id ==> w.userId != u || w.guildId != g) ==>
              WarningCount(SoftDelete(t, IdIs(id)), u, g) == WarningCount(t, u, g)
  {
    var t' := SoftDelete(t, IdIs(id));
    forall u, g | (forall w <- t :: w.id == id ==> w.userId != u || w.guildId != g)
      ensures WarningCount(t', u, g) == WarningCount(t, u, g)
    {
      var c := ActiveOfUser(u, g);
      forall i | 0 <= i < |t| ensures Matches(t[i], c) <==> Matches(t'[i], c) {
        assert t[i] in t;
      }
      CountPointwise(t, t', c);
    }
  }

  /** Removing the same warning twice leaves the table as removing it once. */
  lemma RemoveIdempotent(t: Table, id: int)
    ensures SoftDelete(SoftDelete(t, IdIs(id)), IdIs(id)) == SoftDelete(t, IdIs(id))
  {
  }

  /**
   * removeWarning's `RETURNING *` gives the updated row, now inactive, or
   * nothing when no row has that id.
   */
  lemma RemoveReturnsRow(t: Table, id: int)
    requires IdsIncreasing(t)
    ensures forall i :: 0 <= i < |t| && t[i].id == id ==>
              WarningById(SoftDelete(t, IdIs(id)), id) == Some(t[i].(active := false))
    ensures (forall w <- t :: w.id != id) ==> WarningById(SoftDelete(t, IdIs(id)), id) == None
  {
    var t' := SoftDelete(t, IdIs(id));
    assert IdsIncreasing(t');
    forall i | 0 <= i < |t| && t[i].id == id
      ensures WarningById(t', id) == Some(t[i].(active := false))
    {
      WarningByIdFound(t', i);
    }
    if forall w <- t :: w.id != id {
      forall w <- t' ensures w.id != id {
        var k :| 0 <= k < |t'| && t'[k] == w;
        assert t[k] in t;
      }
      WarningByIdAbsent(t', id);
    }
  }

  /** After clearing, (user, guild) has no active warning left. */
  lemma ClearLeavesNone(t: Table, userId: string, guildId: string)
    ensures WarningCount(SoftDelete(t, ActiveOfUser(userId, guildId)), userId, guildId) == 0
  {
    var c := ActiveOfUser(userId, guildId);
    CountNoMatch(SoftDelete(t, c), c);
  }

  /** Clearing one (user, guild) leaves every other pair's rows and count as they were. */
  lemma ClearFrame(t: Table, userId: string, guildId: string, u: string, g: string)
    requires u != userId || g != guildId
    ensures forall i :: 0 <= i < |t| && (t[i].userId != userId || t[i].guildId != guildId) ==>
              SoftDelete(t, ActiveOfUser(userId, guildId))[i] == t[i]
    ensures WarningCount(SoftDelete(t, ActiveOfUser(userId, guildId)), u, g) == WarningCount(t, u, g)
  {
    CountPointwise(t, SoftDelete(t, ActiveOfUser(userId, guildId)), ActiveOfUser(u, g));
  }

  /**
   * The rows clearUserWarnings changes are exactly the active rows of
   * (user, guild), so their number is the count before clearing.
   */
  lemma {:induction false} ClearChangesCountedRows(t: Table, userId: string, guildId: string)
    ensures ChangedRows(t, SoftDelete(t, ActiveOfUser(userId, guildId))) == WarningCount(t, userId, guildId)
  {
    if t != [] {
      var c := ActiveOfUser(userId, guildId);
      var init, last := t[..|t| - 1], t[|t| - 1];
      ClearChangesCountedRows(init, userId, guildId);
      assert SoftDelete(t, c)[..|t| - 1] == SoftDelete(init, c);
    }
  }

  /** The clause-level change of any UPDATE is an evolution of the table. */
  lemma SoftDeleteEvolves(t: Table, c: Where)
    ensures Evolves(t, SoftDelete(t, c))
  {
  }

  /** A soft delete keeps the table well formed: ids, timestamps and the counter are untouched. */
  lemma SoftDeleteWellFormed(t: Table, c: Where, nextId: nat)
    requires WellFormed(t, nextId)
    ensures WellFormed(SoftDelete(t, c), nextId)
  {
    var r := SoftDelete(t, c);
    assert forall i :: 0 <= i < |t| ==> r[i].id == t[i].id && r[i].createdAt == t[i].createdAt;
    forall w <- r ensures w.id < nextId {
      var i :| 0 <= i < |r| && r[i] == w;
      assert t[i] in t;
    }
  }

  /**
   * clearUserWarnings, corrected: the rows it changes are exactly the
   * active rows of (user, guild), it leaves none, and the table stays well
   * formed and only evolves.
   */
  lemma ClearSpec(t: Table, userId: string, guildId: string, nextId: nat)
    requires WellFormed(t, nextId)
    ensures WellFormed(SoftDelete(t, ActiveOfUser(userId, guildId)), nextId)
    ensures |Select(t, ActiveOfUser(userId, guildId))| == WarningCount(t, userId, guildId)
    ensures ChangedRows(t, SoftDelete(t, ActiveOfUser(userId, guildId))) == WarningCount(t, userId, guildId)
    ensures WarningCount(SoftDelete(t, ActiveOfUser(userId, guildId)), userId, guildId) == 0
    ensures Evolves(t, SoftDelete(t, ActiveOfUser(userId, guildId)))
  {
    var c := ActiveOfUser(userId, guildId);
    SoftDeleteWellFormed(t, c, nextId);
    SelectLength(t, c);
    ClearChangesCountedRows(t, userId, guildId);
    ClearLeavesNone(t, userId, guildId);
    SoftDeleteEvolves(t, c);
  }

  /** Evolution composes: `active` never comes back along any sequence of calls. */
  lemma EvolvesTransitive(a: Table, b: Table, c: Table)
    requires Evolves(a, b) && Evolves(b, c)
    ensures Evolves(a, c)
  {
  }

  /** Appending a row raises the count of its own (user, guild) by exactly one. */
  lemma AddRaisesCount(t: Table, w: Warning, u: string, g: string)
    requires w.active
    ensures WarningCount(t + [w], u, g) == WarningCount(t, u, g) + (if w.userId == u && w.guildId == g then 1 else 0)
  {
    CountAppend(t, w, ActiveOfUser(u, g));
  }
}
