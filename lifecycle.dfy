/**
 How the writing statements combine: the row lifecycle active -> soft-deleted (by hand
 or by expiry) -> restored, or removed for good, and what the queries show along the way.
 */
module Lifecycle {
  import opened Text
  import opened Announcements

  // ---------------------------------------------------------------------------
  // Soft delete and restore

  /** Restoring a row that was active before a soft delete gives back the table as it was. */
  lemma RestoreUndoesSoftDelete(t: Table, id: int, now: int)
    requires id in t && IsActive(t[id])
    ensures Restored(SoftDeleted(t, id, now), id) == t
  {
  }

  /** A second soft delete keeps the row deleted and only re-stamps `deletedAt`. */
  lemma SoftDeleteRestamps(t: Table, id: int, first: int, second: int)
    ensures SoftDeleted(SoftDeleted(t, id, first), id, second) == SoftDeleted(t, id, second)
  {
  }

  /**
   A soft-deleted row leaves the default listing and every search, but is still in the
   listing that includes deleted rows and is still found by id.
   */
  lemma SoftDeletedRowHidden(t: Table, id: int, now: int, keyword: string,
                             searchTitle: bool, searchContent: bool)
    requires WellFormed(t) && id in t
    ensures var r := SoftDeleted(t, id, now);
      && (forall a :: a in GetAllAnnouncements(r, false) ==> a.id != id)
      && (forall a :: a in SearchAnnouncements(r, keyword, searchTitle, searchContent) ==> a.id != id)
      && r[id] in GetAllAnnouncements(r, true)
      && GetAnnouncementById(r, id) == Some(t[id].(deletedAt := Some(now)))
  {
  }

  /** Soft delete followed by restore puts the row back into the default listing. */
  lemma RestoreReturnsToListing(t: Table, id: int, now: int)
    requires WellFormed(t) && id in t
    ensures var r := Restored(SoftDeleted(t, id, now), id);
      t[id].(deletedAt := None) in GetAllAnnouncements(r, false)
  {
  }

  // ---------------------------------------------------------------------------
  // Hard delete

  /**
   After a hard delete the id is gone from every query, and every later statement
   aimed at it matches no row and leaves the table as it is.
   */
  lemma HardDeleteIsFinal(t: Table, id: int, title: string, content: string, now: int)
    requires WellFormed(t)
    ensures var r := Removed(t, id);
      && id !in r
      && GetAnnouncementById(r, id) == None
      && (forall a :: a in GetAllAnnouncements(r, true) ==> a.id != id)
      && Removed(r, id) == r
      && Updated(r, id, title, content, now) == r
      && SoftDeleted(r, id, now) == r
      && Restored(r, id) == r
  {
  }

  // ---------------------------------------------------------------------------
  // Expiry

  /** A second sweep at the same time finds nothing left to expire and changes nothing. */
  lemma SweepIsIdempotent(t: Table, now: int)
    ensures ExpiredIds(Swept(t, now), now) == {}
    ensures Swept(Swept(t, now), now) == Swept(t, now)
  {
  }

  /**
   The sweep turns exactly the expired rows from active to soft-deleted, so its count is
   the number of rows it took out of the default listing.
   */
  lemma SweepDeactivatesExactlyExpired(t: Table, now: int)
    requires WellFormed(t)
    ensures forall k :: k in t ==>
      ((t[k] in GetAllAnnouncements(t, false)
          && Swept(t, now)[k] !in GetAllAnnouncements(Swept(t, now), false))
       <==> k in ExpiredIds(t, now))
  {
  }

  /**
   Restore does not look at `expiresAt`: a row the sweep expired and that is then
   restored is expired again at that time or any later one.
   */
  lemma RestoredExpiredRowExpiresAgain(t: Table, id: int, now: int, later: int)
    requires id in ExpiredIds(t, now) && now <= later
    ensures id in ExpiredIds(Restored(Swept(t, now), id), later)
  {
  }

  /**
   The backlog of expired rows only grows while nothing else touches the table: a sweep
   whose batch UPDATE had too many parameters for SQLite, and so left the table as it
   was, fails again at every later time.
   */
  lemma FailedSweepFailsAgain(t: Table, now: int, later: int, variableLimit: nat)
    requires |ExpiredIds(t, now)| > variableLimit && now <= later
    ensures ExpiredIds(t, now) <= ExpiredIds(t, later)
    ensures |ExpiredIds(t, later)| > variableLimit
  {
    SubsetNoLarger(ExpiredIds(t, now), ExpiredIds(t, later));
  }

  /** A subset has at most as many elements as its superset. */
  lemma {:induction false} SubsetNoLarger(a: set<int>, b: set<int>)
    requires a <= b
    ensures |a| <= |b|
    decreases |a|
  {
    if exists x :: x in a {
      var x :| x in a;
      SubsetNoLarger(a - {x}, b - {x});
    }
  }

  /** A row created without a lifetime is never picked by a sweep. */
  lemma NoLifetimeNeverExpires(t: Table, id: int, title: string, content: string,
                               now: int, later: int)
    requires id !in t
    ensures id !in ExpiredIds(Created(t, id, title, content, None, now), later)
  {
  }

  /** A row created with a lifetime of zero hours is picked by the next sweep. */
  lemma ZeroLifetimeExpiresAtOnce(t: Table, id: int, title: string, content: string,
                                  now: int, later: int)
    requires id !in t && now <= later
    ensures id in ExpiredIds(Created(t, id, title, content, Some(0), now), later)
  {
  }

  /**
   Into an empty table, create a row that expired an hour ago; the sweep counts one
   row, which then shows only in the listing that includes deleted rows.
   */
  lemma ExpiredOnCreationScenario(id: int, now: int)
    ensures var t := Created(map[], id, "A", "B", Some(-1), now);
      && ExpiredIds(t, now) == {id}
      && |ExpiredIds(t, now)| == 1
      && GetAllAnnouncements(Swept(t, now), false) == []
      && GetAllAnnouncements(Swept(t, now), true) == [Swept(t, now)[id]]
      && Swept(t, now)[id].deletedAt == Some(now)
  {
    var t := Created(map[], id, "A", "B", Some(-1), now);
    var s := Swept(t, now);
    assert t.Keys == {id};
    assert ExpiredIds(t, now) == {id};
    var all := GetAllAnnouncements(s, true);
    assert s[id] in all;
    assert forall i :: 0 <= i < |all| ==> all[i] == s[id];
    assert |all| >= 2 ==> all[0].id == all[1].id;
    assert all == [s[id]];
    var active := GetAllAnnouncements(s, false);
    assert |active| > 0 ==> active[0] in active && active[0] == s[id];
    assert |active| == 0;
  }

  // ---------------------------------------------------------------------------
  // Search

  /** What each combination of search flags guarantees about every result. */
  lemma SearchScopes(t: Table, keyword: string, searchTitle: bool, searchContent: bool)
    requires WellFormed(t)
    ensures var r := SearchAnnouncements(t, keyword, searchTitle, searchContent);
      && (searchTitle && !searchContent ==> forall a :: a in r ==> IsSubstring(a.title, keyword))
      && (!searchTitle && searchContent ==> forall a :: a in r ==> IsSubstring(a.content, keyword))
      && (searchTitle && searchContent ==>
            forall a :: a in r ==> IsSubstring(a.title, keyword) || IsSubstring(a.content, keyword))
  {
  }

  /** A search with no flag set is the default listing. */
  lemma SearchWithoutScopeListsActive(t: Table, keyword: string)
    requires WellFormed(t)
    ensures SearchAnnouncements(t, keyword, false, false) == GetAllAnnouncements(t, false)
  {
  }

  /**
   A search for the empty keyword returns the same rows as the default listing, whatever
   the flags. (SQL fixes no order among rows with equal `created_at`, so only the rows,
   not their order, are the same.)
   */
  lemma SearchEmptyKeywordListsActive(t: Table, searchTitle: bool, searchContent: bool)
    requires WellFormed(t)
    ensures forall a :: a in SearchAnnouncements(t, "", searchTitle, searchContent)
                        <==> a in GetAllAnnouncements(t, false)
  {
  }
}
