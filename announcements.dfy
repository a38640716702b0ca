/**
 The `announcements` table as a value: its rows, the read-only queries the manager runs
 over it, and the effect of each writing statement as a function from the table before
 to the table after. Timestamps are integers counting seconds.
 */
module Announcements {
  import opened Text

  datatype Option<T> = None | Some(value: T)

  /** One row of the table. `deletedAt` is NULL while the row is active. */
  datatype Announcement = Announcement(
    id: int,
    title: string,
    content: string,
    createdAt: int,
    updatedAt: int,
    deletedAt: Option<int>,
    expiresAt: Option<int>)

  /** The table, keyed by primary key. */
  type Table = map<int, Announcement>

  const SecondsPerHour: int := 3600

  /** The primary key stored in each row is the key it is filed under. */
  ghost predicate WellFormed(t: Table)
  {
    forall k :: k in t ==> t[k].id == k
  }

  predicate IsActive(a: Announcement)
  {
    a.deletedAt.None?
  }

  /** `deleted_at IS NULL AND expires_at IS NOT NULL AND expires_at <= now` */
  predicate IsExpired(a: Announcement, now: int)
  {
    IsActive(a) && a.expiresAt.Some? && a.expiresAt.value <= now
  }

  // ---------------------------------------------------------------------------
  // Result ordering: ORDER BY created_at DESC

  /** Newest first; rows with equal `createdAt` may come in any order. */
  ghost predicate SortedNewestFirst(s: seq<Announcement>)
  {
    forall i, j :: 0 <= i < j < |s| ==> s[i].createdAt >= s[j].createdAt
  }

  /** No row appears twice in a result. */
  ghost predicate DistinctIds(s: seq<Announcement>)
  {
    forall i, j :: 0 <= i < j < |s| ==> s[i].id != s[j].id
  }

  /** A row not older than any row of a newest-first sequence may go in front of it. */
  lemma PrependNewest(x: Announcement, s: seq<Announcement>)
    requires SortedNewestFirst(s) && forall y :: y in s ==> x.createdAt >= y.createdAt
    ensures SortedNewestFirst([x] + s)
  {
  }

  /** A row whose key no row of `s` has may go in front of it without repeating a key. */
  lemma PrependFreshId(x: Announcement, s: seq<Announcement>)
    requires DistinctIds(s) && forall y :: y in s ==> x.id != y.id
    ensures DistinctIds([x] + s)
  {
  }

  /** Places `a` into a newest-first sequence, before the first row not newer than it. */
  function InsertNewestFirst(a: Announcement, s: seq<Announcement>): (r: seq<Announcement>)
    requires SortedNewestFirst(s)
    ensures SortedNewestFirst(r)
    ensures |r| == |s| + 1
    ensures forall x :: x in r <==> x == a || x in s
  {
    if s == [] || a.createdAt >= s[0].createdAt then
      PrependNewest(a, s);
      [a] + s
    else
      var rest := InsertNewestFirst(a, s[1..]);
      assert forall y :: y in rest ==> y == a || y in s[1..];
      PrependNewest(s[0], rest);
      [s[0]] + rest
  }

  /** Inserting a row whose key is new keeps every key in the result distinct. */
  lemma {:induction false} InsertKeepsIdsDistinct(a: Announcement, s: seq<Announcement>)
    requires SortedNewestFirst(s) && DistinctIds(s)
    requires forall x :: x in s ==> x.id != a.id
    ensures DistinctIds(InsertNewestFirst(a, s))
  {
    if s == [] || a.createdAt >= s[0].createdAt {
      PrependFreshId(a, s);
    } else {
      assert forall x :: x in s[1..] ==> x in s;
      InsertKeepsIdsDistinct(a, s[1..]);
      var rest := InsertNewestFirst(a, s[1..]);
      assert forall y :: y in rest ==> y.id != s[0].id;
      PrependFreshId(s[0], rest);
    }
  }

  // ---------------------------------------------------------------------------
  // Row selection: the WHERE clauses the manager uses

  /** The three WHERE clauses of the manager's SELECT statements. */
  datatype RowFilter =
    | AllRows
    | ActiveRows
    | ActiveMatching(keyword: string, searchTitle: bool, searchContent: bool)

  /**
   The LIKE conditions of a search: both fields when both flags are set, one field when
   one is, no condition at all when neither is.
   */
  predicate Matches(a: Announcement, keyword: string, searchTitle: bool, searchContent: bool)
  {
    if searchTitle && searchContent then
      Contains(a.title, keyword) || Contains(a.content, keyword)
    else if searchTitle then
      Contains(a.title, keyword)
    else if searchContent then
      Contains(a.content, keyword)
    else
      true
  }

  predicate Keeps(f: RowFilter, a: Announcement)
  {
    match f
    case AllRows => true
    case ActiveRows => IsActive(a)
    case ActiveMatching(keyword, searchTitle, searchContent) =>
      IsActive(a) && Matches(a, keyword, searchTitle, searchContent)
  }

  /** A non-empty key set has a member. */
  lemma HasMember(keys: set<int>)
    requires keys != {}
    ensures exists m :: m in keys
  {
    if forall m :: m !in keys {
      assert false;
    }
  }

  /** Every non-empty set of keys has a least element. */
  lemma {:induction false} MinKeyExists(keys: set<int>)
    requires keys != {}
    ensures exists m :: m in keys && forall k :: k in keys ==> m <= k
    decreases |keys|
  {
    HasMember(keys);
    var x :| x in keys;
    var others := keys - {x};
    if exists y :: y in others {
      MinKeyExists(others);
      var m :| m in others && forall k :: k in others ==> m <= k;
      var least := if x < m then x else m;
      forall k | k in keys
        ensures least <= k
      {
        if k != x {
          assert k in others;
        }
      }
      assert least in keys;
    } else {
      forall k | k in keys
        ensures x <= k
      {
        assert k !in others;
      }
    }
  }

  /** The smallest key of a non-empty key set: the order in which the scan visits rows. */
  function MinKey(keys: set<int>): (m: int)
    requires keys != {}
    ensures m in keys && forall k :: k in keys ==> m <= k
  {
    MinKeyExists(keys);
    var m :| m in keys && forall k :: k in keys ==> m <= k;
    m
  }

  /**
   The rows filed under `keys` that `f` keeps, newest first: a SELECT ... WHERE ...
   ORDER BY created_at DESC restricted to those keys.
   */
  function Select(t: Table, keys: set<int>, f: RowFilter): (r: seq<Announcement>)
    requires WellFormed(t) && keys <= t.Keys
    ensures SortedNewestFirst(r) && DistinctIds(r)
    ensures forall a :: a in r ==> a.id in keys && t[a.id] == a && Keeps(f, a)
    ensures forall k :: k in keys && Keeps(f, t[k]) ==> t[k] in r
    decreases keys
  {
    if keys == {} then
      []
    else
      var k := MinKey(keys);
      var rest := Select(t, keys - {k}, f);
      if Keeps(f, t[k]) then
        InsertKeepsIdsDistinct(t[k], rest);
        InsertNewestFirst(t[k], rest)
      else
        rest
  }

  // ---------------------------------------------------------------------------
  // Queries

  /**
   `get_all_announcements`: every row when `includeDeleted`, else exactly the active
   rows; newest first. Deleted rows are left out unless asked for.
   */
  function GetAllAnnouncements(t: Table, includeDeleted: bool := false): (r: seq<Announcement>)
    requires WellFormed(t)
    ensures SortedNewestFirst(r) && DistinctIds(r)
    ensures forall a :: a in r ==> a.id in t && t[a.id] == a
    ensures forall k :: k in t ==> (t[k] in r <==> includeDeleted || IsActive(t[k]))
  {
    if includeDeleted then Select(t, t.Keys, AllRows) else Select(t, t.Keys, ActiveRows)
  }

  /** `get_announcement_by_id`: the row with that key, whatever its `deletedAt`. */
  function GetAnnouncementById(t: Table, id: int): (r: Option<Announcement>)
    requires WellFormed(t)
    ensures r.Some? <==> id in t
    ensures r.Some? ==> r.value.id == id && r.value == t[id]
  {
    if id in t then Some(t[id]) else None
  }

  /**
   `search_announcements`: active rows whose chosen fields contain `keyword`, newest
   first. Both fields are searched unless a flag is turned off; with neither flag set no
   LIKE condition is added.
   */
  function SearchAnnouncements(t: Table, keyword: string, searchTitle: bool := true,
                               searchContent: bool := true)
    : (r: seq<Announcement>)
    requires WellFormed(t)
    ensures SortedNewestFirst(r) && DistinctIds(r)
    ensures forall a :: a in r ==> a.id in t && t[a.id] == a && IsActive(a)
    ensures forall k :: k in t && IsActive(t[k]) ==>
              (t[k] in r <==> Matches(t[k], keyword, searchTitle, searchContent))
  {
    if searchTitle || searchContent then
      Select(t, t.Keys, ActiveMatching(keyword, searchTitle, searchContent))
    else
      Select(t, t.Keys, ActiveRows)
  }

  // ---------------------------------------------------------------------------
  // The writing statements, as functions of the table

  /** `expires_at` of a new row: `now` plus the given number of hours, or NULL. */
  function ExpiryFor(expiresAfterHours: Option<int>, now: int): Option<int>
  {
    match expiresAfterHours
    case None => None
    case Some(hours) => Some(now + hours * SecondsPerHour)
  }

  /** INSERT of a new active row under the fresh key `id`, stamped `now`. */
  function Created(t: Table, id: int, title: string, content: string,
                   expiresAfterHours: Option<int>, now: int): (r: Table)
    requires id !in t
    ensures r.Keys == t.Keys + {id}
    ensures forall k :: k in t ==> r[k] == t[k]
    ensures IsActive(r[id]) && r[id].id == id && r[id].createdAt == now && r[id].updatedAt == now
    ensures r[id].title == title && r[id].content == content
    ensures r[id].expiresAt.Some? <==> expiresAfterHours.Some?
    ensures expiresAfterHours.Some? ==>
              r[id].expiresAt.value == now + expiresAfterHours.value * SecondsPerHour
    ensures WellFormed(t) ==> WellFormed(r)
  {
    t[id := Announcement(id, title, content, now, now, None, ExpiryFor(expiresAfterHours, now))]
  }

  /** UPDATE of title, content and updated_at on the row `id`, if there is one. */
  function Updated(t: Table, id: int, title: string, content: string, now: int): (r: Table)
    ensures r.Keys == t.Keys
    ensures forall k :: k in t && k != id ==> r[k] == t[k]
    ensures id in t ==>
              && r[id].title == title && r[id].content == content && r[id].updatedAt == now
              && r[id].id == t[id].id && r[id].createdAt == t[id].createdAt
              && r[id].deletedAt == t[id].deletedAt && r[id].expiresAt == t[id].expiresAt
    ensures WellFormed(t) ==> WellFormed(r)
  {
    if id in t then t[id := t[id].(title := title, content := content, updatedAt := now)] else t
  }

  /** UPDATE ... SET deleted_at = now on the row `id`, whatever its state. */
  function SoftDeleted(t: Table, id: int, now: int): (r: Table)
    ensures r.Keys == t.Keys
    ensures forall k :: k in t && k != id ==> r[k] == t[k]
    ensures id in t ==> !IsActive(r[id]) && r[id].deletedAt.value == now
    ensures id in t ==> r[id] == t[id].(deletedAt := r[id].deletedAt)
    ensures WellFormed(t) ==> WellFormed(r)
  {
    if id in t then t[id := t[id].(deletedAt := Some(now))] else t
  }

  /** UPDATE ... SET deleted_at = NULL on the row `id`, whatever its state. */
  function Restored(t: Table, id: int): (r: Table)
    ensures r.Keys == t.Keys
    ensures forall k :: k in t && k != id ==> r[k] == t[k]
    ensures id in t ==> IsActive(r[id]) && r[id] == t[id].(deletedAt := r[id].deletedAt)
    ensures WellFormed(t) ==> WellFormed(r)
  {
    if id in t then t[id := t[id].(deletedAt := None)] else t
  }

  /** DELETE of the row `id`. */
  function Removed(t: Table, id: int): (r: Table)
    ensures r.Keys == t.Keys - {id}
    ensures forall k :: k in r ==> r[k] == t[k]
    ensures WellFormed(t) ==> WellFormed(r)
  {
    t - {id}
  }

  /** The keys the sweep's SELECT returns at time `now`. */
  function ExpiredIds(t: Table, now: int): (ids: set<int>)
    ensures ids <= t.Keys
    ensures forall k :: k in t ==> (k in ids <==> IsExpired(t[k], now))
  {
    set k | k in t && IsExpired(t[k], now)
  }

  /** The sweep's batch UPDATE: every expired row gets `deletedAt == now`. */
  function Swept(t: Table, now: int): (r: Table)
    ensures r.Keys == t.Keys
    ensures forall k :: k in t && !IsExpired(t[k], now) ==> r[k] == t[k]
    ensures forall k :: k in t && IsExpired(t[k], now) ==>
              r[k] == t[k].(deletedAt := Some(now))
    ensures WellFormed(t) ==> WellFormed(r)
  {
    map k | k in t :: if IsExpired(t[k], now) then t[k].(deletedAt := Some(now)) else t[k]
  }
}
