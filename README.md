# Announcement manager — a Dafny model

This project models the announcement store of `AnnouncementManager.py`: the class
`AnnouncementManager`, which keeps time-bound announcements in one `announcements`
table. The manager can create, update, soft-delete, restore and hard-delete rows. It can
list, fetch and search them. A background checker soft-deletes rows whose expiry time has
passed.

The table is a `map<int, Announcement>` from primary key to row (`announcements.dfy`).
Each SQL statement the manager runs is one function from the table before to the table
after. The read-only queries are functions over the map: a filter on the rows, then an
ordering by `createdAt`, newest first. The class `Manager` (`manager.dfy`) holds three
fields:

- the table;
- the key counter of the table's AUTOINCREMENT column;
- the `_expiry_checker_running` flag.

Its methods change those fields. Each method's `ensures` ties the new table to the
matching function of the old one. `lifecycle.dfy` proves how the operations combine
along the row lifecycle. A row is created active. It is then soft-deleted, by hand or by
expiry, and may be restored, or it is hard-deleted for good. Substring search lives in
`text.dfy`.

Time is an integer number of seconds, passed as `now` to every operation that stamps a
row. A lifetime given in hours becomes `hours * 3600` seconds.

The Python default arguments `include_deleted=False` (AnnouncementManager.py:118) and
`search_title=True, search_content=True` (AnnouncementManager.py:265) are default
parameter values of `GetAllAnnouncements` and `SearchAnnouncements`.

The model follows the code on these points:

- The manager does not validate an empty title or content. Only the page does that. The
  model has no validation error.
- `expires_at` may lie before `created_at`, because a negative number of hours is
  accepted. The model does not require `expires_at >= created_at`.
- `restore` clears `deleted_at` without looking at `expires_at`. A restored row that has
  expired is therefore picked again by the next sweep.
- The sweep's batch UPDATE binds one parameter per expired row. SQLite refuses a
  statement with more parameters than its limit (999 before SQLite 3.32, 32766 after), so
  the limit is a parameter `variableLimit` of the sweep and of a checker pass.

## Model

| member | source | states |
|---|---|---|
| `Text.Contains` | AnnouncementManager.py:284-292 | The `LIKE '%keyword%'` test: true iff the keyword occurs at some position of the text. |
| `Text.EmptyKeywordEverywhere` | AnnouncementManager.py:286 | The empty keyword (`'%%'`) matches every text. |
| `Announcements.Select` | AnnouncementManager.py:134-141 | A SELECT with ORDER BY created_at DESC. Every row under the given keys that the WHERE clause keeps appears once, nothing else appears, and the result is newest first. |
| `Announcements.GetAllAnnouncements` | AnnouncementManager.py:132-141 | With `includeDeleted`, the result holds every row. Without it, the result holds exactly the rows whose `deletedAt` is null. Each row appears once, newest first. |
| `Announcements.GetAnnouncementById` | AnnouncementManager.py:159-163 | Returns the row iff its key is in the table, whether or not it is soft-deleted. |
| `Announcements.SearchAnnouncements` | AnnouncementManager.py:284-301 | Only active rows are returned, newest first. An active row is returned iff the LIKE condition chosen by the two flags holds for it. Without flags, every active row is returned. |
| `Announcements.Created` | AnnouncementManager.py:38-48 | Adds exactly one active row under a key not in the table, and leaves every other row as it was. The new row has `createdAt` and `updatedAt` equal to `now`. Its expiry is `now + hours*3600` when hours are given, else null. |
| `Announcements.Updated` | AnnouncementManager.py:183-190 | Only title, content and `updatedAt` of row `id` change. Its key, `createdAt`, `deletedAt` and `expiresAt` are kept, and no other row changes. |
| `Announcements.SoftDeleted` | AnnouncementManager.py:210-213 | Row `id` gets `deletedAt = now` whatever its state. Nothing else in that row or any other row changes. |
| `Announcements.Restored` | AnnouncementManager.py:256-259 | Row `id` gets a null `deletedAt` whatever its state. Nothing else changes. |
| `Announcements.Removed` | AnnouncementManager.py:233-236 | Row `id` is removed. Every other row is kept. |
| `Announcements.ExpiredIds` | AnnouncementManager.py:65-68 | The sweep's SELECT: exactly the keys of active rows whose non-null expiry is at or before `now`. |
| `Announcements.Swept` | AnnouncementManager.py:71-77 | The sweep's batch UPDATE: exactly the expired rows get `deletedAt = now`. All other rows are unchanged. |
| `Lifecycle.RestoreUndoesSoftDelete` | AnnouncementManager.py:210-213 | Restoring a row that was active before a soft delete gives back the original table. |
| `Lifecycle.SoftDeleteRestamps` | AnnouncementManager.py:210-213 | A second soft delete keeps the row deleted and only re-stamps `deletedAt`. |
| `Lifecycle.SoftDeletedRowHidden` | AnnouncementManager.py:137-139 | A soft-deleted row is absent from the default listing and from every search. It is still in the include-deleted listing and still found by id. |
| `Lifecycle.RestoreReturnsToListing` | AnnouncementManager.py:256-259 | After a soft delete and then a restore, the row is back in the default listing. |
| `Lifecycle.HardDeleteIsFinal` | AnnouncementManager.py:233-238 | After a hard delete, lookup by id returns none and the include-deleted listing lacks the id. A second hard delete, an update, a soft delete and a restore of that id each match no row and change nothing. |
| `Lifecycle.SweepIsIdempotent` | AnnouncementManager.py:65-79 | A second sweep at the same time finds no expired row, so it returns 0 and changes nothing. |
| `Lifecycle.SweepDeactivatesExactlyExpired` | AnnouncementManager.py:65-79 | The rows the sweep takes out of the default listing are exactly the ones it counts. |
| `Lifecycle.RestoredExpiredRowExpiresAgain` | AnnouncementManager.py:256-259 | Restore keeps `expiresAt`. An expired row that was swept and then restored is expired again at that time or any later one. |
| `Lifecycle.NoLifetimeNeverExpires` | AnnouncementManager.py:44-48 | A row created without hours is never selected by the sweep, at any time. |
| `Lifecycle.ZeroLifetimeExpiresAtOnce` | AnnouncementManager.py:38-43 | A row created with 0 hours is selected by any sweep at that time or later. |
| `Lifecycle.ExpiredOnCreationScenario` | AnnouncementManager.py:38-79 | Into an empty table, create a row with -1 hours. The sweep then selects exactly that row. Afterwards the default listing is empty, and the include-deleted listing is that row with `deletedAt = now`. |
| `Lifecycle.SearchScopes` | AnnouncementManager.py:284-292 | With only the title flag, every result's title contains the keyword. With only the content flag, every result's content contains it. With both flags, the title or the content contains it. |
| `Lifecycle.SearchWithoutScopeListsActive` | AnnouncementManager.py:298-299 | A search with neither flag set gives the same result as the default listing. |
| `Lifecycle.SearchEmptyKeywordListsActive` | AnnouncementManager.py:284-299 | A search for the empty keyword returns the same rows as the default listing, whatever the flags. Only the rows are the same, not their order: SQL fixes no order among rows with equal `created_at`. |
| `AnnouncementManager.Manager.constructor` | AnnouncementManager.py:8-17 | Opens a manager on an existing table with the checker flag cleared. |
| `AnnouncementManager.Manager.CreateAnnouncement` | AnnouncementManager.py:35-50 | Returns a key greater than every key in the table. The new table is `Created` of the old one, and the key counter moves on. |
| `AnnouncementManager.Manager.CheckAndDeleteExpired` | AnnouncementManager.py:61-79 | When the SELECT finds at most `variableLimit` rows, the new table is `Swept` of the old one and the result is the number of rows found. With more rows the UPDATE fails: the table is unchanged and no count is returned. |
| `AnnouncementManager.Manager.StartExpiryChecker` | AnnouncementManager.py:90-108 | Afterwards the flag is set. A new worker is launched iff the flag was clear, so a second start while the flag is set does nothing. |
| `AnnouncementManager.Manager.StopExpiryChecker` | AnnouncementManager.py:111-113 | Afterwards the flag is clear. |
| `AnnouncementManager.Manager.ExpiryCheckerTick` | AnnouncementManager.py:96-102 | One pass of a worker's loop. With the flag set and at most `variableLimit` expired rows, the pass is a sweep and counts its rows. With the flag clear, or when the sweep fails and the error is caught, the table is untouched and the count is 0. |
| `Lifecycle.FailedSweepFailsAgain` | AnnouncementManager.py:65-76 | The expired set at a later time contains the one at an earlier time. So a sweep that failed for too many parameters, and left the table unchanged, fails again at every later time until something else changes the table. |
| `AnnouncementManager.Manager.UpdateAnnouncement` | AnnouncementManager.py:183-192 | Returns true iff the row exists. The new table is `Updated` of the old one, so on failure the table is unchanged. |
| `AnnouncementManager.Manager.SoftDeleteAnnouncement` | AnnouncementManager.py:210-215 | Returns true iff the row exists, including a row that is already deleted. The new table is `SoftDeleted` of the old one. |
| `AnnouncementManager.Manager.HardDeleteAnnouncement` | AnnouncementManager.py:233-238 | Returns true iff the row existed. The new table is `Removed` of the old one. |
| `AnnouncementManager.Manager.RestoreAnnouncement` | AnnouncementManager.py:256-261 | Returns true iff the row exists, whatever its prior state. The new table is `Restored` of the old one. |

## Left out

- Database I/O. Opening, committing and closing the SQLite connection (AnnouncementManager.py:19-21) are not modelled. Each method is one atomic step on the map.
- Clocks. There is no real clock: `datetime.now()`, `datetime('now')` and `CURRENT_TIMESTAMP` all become the integer `now` passed in. The model also leaves out the following:
  - `datetime.now()` gives local time, while `datetime('now')` and `CURRENT_TIMESTAMP` give UTC.
  - Timestamps are compared as strings.
  - The sweep reads the clock once for its SELECT and again for its UPDATE; the model uses one `now` for both.
- Background thread. The thread (AnnouncementManager.py:95-116) is only partly modelled. Sleeping, the daemon flag and `join(timeout=5)` are concurrency and are left out. Only the running flag and one pass of the loop are modelled, with a caught error as a pass that changes nothing. The single flag cannot tell one worker from two. `stop_expiry_checker` clears the flag (:113), but its `join` gives up after 5 seconds while the worker may still sleep for up to `interval_seconds` (:104). A start in that window finds the flag clear, sets it and launches a second worker (:90-108). The old worker then wakes, finds the flag set and keeps looping, so two workers sweep. The model does not capture this: `StartExpiryChecker` reports one launch and hides the worker still alive. The table-level contracts hold only while passes do not overlap, so that each pass is one more `ExpiryCheckerTick`. The sweep's SELECT (AnnouncementManager.py:65-68) and its UPDATE (:73-76) are separate transactions, and the UPDATE does not test `deleted_at IS NULL` again. Two overlapping sweeps (two workers, or a worker and a manual check from the page) both select a row, both re-stamp it, and both count it. A soft delete that lands between the SELECT and the UPDATE is also re-stamped and counted. The check-then-set of the flag (:90-93) is not atomic either, so two concurrent first starts can both launch a worker. No sequence of atomic steps of the model produces these outcomes.
- Printing. Every console message is left out: the sweep count and the error in the loop (AnnouncementManager.py:100, 102), the start message (:109) and the stop message (:116).
- Announcements.Created: the two failures of `create_announcement` are not modelled, so the model inserts a row for every integer number of hours and every key. Python raises OverflowError at AnnouncementManager.py:39 when the expiry falls outside the `datetime` range (before year 1 or after year 9999); the INSERT then never runs. SQLite fails with SQLITE_FULL once the AUTOINCREMENT key reaches 2^63-1; `nextId` is unbounded.
- `_expiry_checker_thread`: the reference to the worker thread is not a field of the model. `StartExpiryChecker` reports a launch through its result instead.
- Text.Contains: SQL `LIKE` is weaker here. The model uses exact, case-sensitive substring containment. It leaves out ASCII case-insensitivity and the `%` and `_` wildcards inside the keyword.
- Announcements.GetAllAnnouncements: rows with equal `createdAt` can come in any order in SQL, so the contract promises only a newest-first order. `Announcements.SearchAnnouncements` does the same.
- Result shape. Query results are sequences of records with named fields, not tuples of columns.
- Schema mismatch. The schema in `data/datainit.py` has no `expires_at` column. The model assumes the column exists, as the manager's statements require. Schema creation is not part of this model.
- Pages. The Streamlit pages (`AnnouncementManagerPage.py`, `AnnouncementManagerPage2.py`, `main.py`) are UI. That includes their check for an empty title and the way they unpack result tuples.
- Interval. The checker's polling interval (`interval_seconds`, default 300) only sets how long the loop sleeps, so it is not a parameter.
- Timestamp invariant. `deleted_at >= created_at` holds only if the clock never goes backwards. The model does not constrain `now` between calls, so it does not state this rule.
