/**
 The announcement manager: the table it writes to, the key counter of the table's
 AUTOINCREMENT column, and the flag that keeps the background expiry checker running.
 Every method is one committed statement on the table; the current time is passed in.
 */
module AnnouncementManager {
  import opened Announcements

  class Manager {
    /** The rows of the `announcements` table, by primary key. */
    var rows: Table
    /** The key the next INSERT receives; keys are never handed out twice. */
    var nextId: int
    /** Whether the background expiry checker has been started and not stopped. */
    var expiryCheckerRunning: bool

    ghost predicate Valid()
      reads this
    {
      && WellFormed(rows)
      && 1 <= nextId
      && forall k :: k in rows ==> 1 <= k < nextId
    }

    /** A manager over an existing table whose key counter stands at `counter`. */
    constructor (table: Table, counter: int)
      requires WellFormed(table) && 1 <= counter
      requires forall k :: k in table ==> 1 <= k < counter
      ensures Valid()
      ensures rows == table && nextId == counter && !expiryCheckerRunning
    {
      rows := table;
      nextId := counter;
      expiryCheckerRunning := false;
    }

    /**
     INSERT of a new active row with a key no row has ever had; its expiry is `now` plus
     the given hours, or none.
     */
    method CreateAnnouncement(title: string, content: string, expiresAfterHours: Option<int>, now: int)
      returns (id: int)
      requires Valid()
      modifies this`rows, this`nextId
      ensures Valid()
      ensures id !in old(rows) && forall k :: k in old(rows) ==> k < id
      ensures id == old(nextId) && nextId == id + 1
      ensures rows == Created(old(rows), id, title, content, expiresAfterHours, now)
    {
      id := nextId;
      if expiresAfterHours.Some? {
        var expiresAt := now + expiresAfterHours.value * SecondsPerHour;
        rows := rows[id := Announcement(id, title, content, now, now, None, Some(expiresAt))];
      } else {
        rows := rows[id := Announcement(id, title, content, now, now, None, None)];
      }
      nextId := nextId + 1;
    }

    /**
     Soft-deletes, in one batch, every active row whose expiry is due at `now`, and
     returns how many rows that was. The batch UPDATE binds one parameter per row, so
     when there are more rows than SQLite's `variableLimit` allows, the statement fails:
     nothing is committed and no count comes back (`None`).
     */
    method CheckAndDeleteExpired(now: int, variableLimit: nat) returns (count: Option<nat>)
      requires Valid()
      modifies this`rows
      ensures Valid()
      ensures |ExpiredIds(old(rows), now)| <= variableLimit ==>
                rows == Swept(old(rows), now) && count == Some(|ExpiredIds(old(rows), now)|)
      ensures |ExpiredIds(old(rows), now)| > variableLimit ==>
                rows == old(rows) && count == None
    {
      var expiredIds := ExpiredIds(rows, now);
      if |expiredIds| > variableLimit {
        return None;
      }
      var pending := expiredIds;
      while pending != {}
        invariant pending <= expiredIds
        invariant rows.Keys == old(rows).Keys
        invariant forall k :: k in rows ==>
          rows[k] == if k in expiredIds && k !in pending
                     then old(rows)[k].(deletedAt := Some(now)) else old(rows)[k]
        decreases pending
      {
        HasMember(pending);
        var id :| id in pending;
        rows := rows[id := rows[id].(deletedAt := Some(now))];
        pending := pending - {id};
      }
      assert forall k :: k in rows ==> rows[k] == Swept(old(rows), now)[k];
      assert rows == Swept(old(rows), now);
      count := Some(|expiredIds|);
    }

    /** Starts the checker unless the flag says it is running; `launched` says a new worker began. */
    method StartExpiryChecker() returns (launched: bool)
      modifies this`expiryCheckerRunning
      ensures expiryCheckerRunning
      ensures launched == !old(expiryCheckerRunning)
    {
      if expiryCheckerRunning {
        return false;
      }
      expiryCheckerRunning := true;
      launched := true;
    }

    /**
     Clears the flag. A worker stops only when it next reads the flag clear; one still
     asleep when the flag is set again by a later start goes on looping.
     */
    method StopExpiryChecker()
      modifies this`expiryCheckerRunning
      ensures !expiryCheckerRunning
    {
      expiryCheckerRunning := false;
    }

    /**
     One pass of a worker's loop, from its check of the flag: a sweep when the flag is
     set, nothing when it is clear. A failed sweep is caught and soft-deletes nothing.
     `count` is the number of rows the pass soft-deleted.
     */
    method ExpiryCheckerTick(now: int, variableLimit: nat) returns (count: nat)
      requires Valid()
      modifies this`rows
      ensures Valid()
      ensures old(expiryCheckerRunning) && |ExpiredIds(old(rows), now)| <= variableLimit ==>
                rows == Swept(old(rows), now) && count == |ExpiredIds(old(rows), now)|
      ensures !old(expiryCheckerRunning) || |ExpiredIds(old(rows), now)| > variableLimit ==>
                rows == old(rows) && count == 0
    {
      count := 0;
      if expiryCheckerRunning {
        var swept := CheckAndDeleteExpired(now, variableLimit);
        if swept.Some? {
          count := swept.value;
        }
      }
    }

    /** UPDATE of title, content and updated_at; true iff a row with that key exists. */
    method UpdateAnnouncement(id: int, title: string, content: string, now: int) returns (ok: bool)
      requires Valid()
      modifies this`rows
      ensures Valid()
      ensures ok <==> id in old(rows)
      ensures rows == Updated(old(rows), id, title, content, now)
    {
      ok := id in rows;
      if ok {
        rows := rows[id := rows[id].(title := title, content := content, updatedAt := now)];
      }
    }

    /** Stamps `deletedAt` with `now` whatever the row's state; true iff the row exists. */
    method SoftDeleteAnnouncement(id: int, now: int) returns (ok: bool)
      requires Valid()
      modifies this`rows
      ensures Valid()
      ensures ok <==> id in old(rows)
      ensures rows == SoftDeleted(old(rows), id, now)
    {
      ok := id in rows;
      if ok {
        rows := rows[id := rows[id].(deletedAt := Some(now))];
      }
    }

    /** Removes the row for good; true iff it existed. */
    method HardDeleteAnnouncement(id: int) returns (ok: bool)
      requires Valid()
      modifies this`rows
      ensures Valid()
      ensures ok <==> id in old(rows)
      ensures rows == Removed(old(rows), id)
    {
      ok := id in rows;
      rows := rows - {id};
    }

    /** Clears `deletedAt` whatever the row's state; true iff the row exists. */
    method RestoreAnnouncement(id: int) returns (ok: bool)
      requires Valid()
      modifies this`rows
      ensures Valid()
      ensures ok <==> id in old(rows)
      ensures rows == Restored(old(rows), id)
    {
      ok := id in rows;
      if ok {
        rows := rows[id := rows[id].(deletedAt := None)];
      }
    }
  }
}
