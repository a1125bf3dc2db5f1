/** The zone registry of `commands/utils/percepteur.py`. Every operation that writes
    opens a connection with foreign keys on, runs one to three statements and either
    commits them all or, on an `IntegrityError`, closes the connection without
    committing, which discards them (`delete_zone` has no `except` and always commits).
    The reads run one SELECT and close. Here an operation that writes computes the statements' effect on copies of the tables and
    installs the copies only when no statement raised. The clock is the `now`
    parameter. */
module ZoneRegistry {
  import opened Seqs
  import opened Text
  import opened Schema

  /** Python's `int(is_locked)`. */
  function LockedFlag(isLocked: bool): (v: int)
    ensures v == 0 || v == 1
    ensures v == 1 <==> isLocked
  {
    if isLocked then 1 else 0
  }

  /** The row `register_zone` inserts. */
  function NewZone(zoneName: string, user: string, now: string, isLocked: bool): ZoneRow
  {
    ZoneRow(zoneName, LockedFlag(isLocked), now, user)
  }

  /** The row `reserve_zone` and `unreserve_zone` append to Lock: the user is both
      the `Pseudo` and the `CreatedBy`. */
  function LockEntry(zoneName: string, user: string, now: string): LockRow
  {
    LockRow(zoneName, user, now, user)
  }

  /** Every row named `name` carries the flag `v`. */
  ghost predicate FlagIs(zones: seq<ZoneRow>, name: string, v: int)
  {
    forall z :: z in zones && z.zone == name ==> z.isLocked == v
  }

  lemma SetIsLockedSetsFlag(zones: seq<ZoneRow>, name: string, v: int)
    ensures FlagIs(SetIsLocked(zones, name, v), name, v)
  {
    var r := SetIsLocked(zones, name, v);
    forall z | z in r && z.zone == name ensures z.isLocked == v {
      var i :| 0 <= i < |r| && r[i] == z;
    }
  }

  lemma HasZoneAppend(a: seq<ZoneRow>, b: seq<ZoneRow>, n: string)
    ensures HasZone(a + b, n) <==> HasZone(a, n) || HasZone(b, n)
  {
    if HasZone(a + b, n) {
      var z :| z in a + b && z.zone == n;
      assert z in a || z in b;
    }
    if HasZone(a, n) {
      var z :| z in a && z.zone == n;
      assert z in a + b;
    }
    if HasZone(b, n) {
      var z :| z in b && z.zone == n;
      assert z in a + b;
    }
  }

  /** `register_zone`: inserts (zone_name, int(is_locked), date, user); a taken name
      violates UNIQUE and nothing is committed. */
  method RegisterZone(db: Db, zoneName: string, user: string, now: string, isLocked: bool := false)
    requires db.Valid()
    modifies db
    ensures db.Valid()
    ensures !old(HasZone(db.zones, zoneName)) ==>
              db.zones == old(db.zones) + [NewZone(zoneName, user, now, isLocked)]
    ensures old(HasZone(db.zones, zoneName)) ==> db.zones == old(db.zones)
    ensures db.locks == old(db.locks) && db.metiers == old(db.metiers) && db.tables == old(db.tables)
  {
    var inserted := InsertZone(db.zones, NewZone(zoneName, user, now, isLocked));
    if inserted.Err? {
      return;
    }
    forall l | l in db.locks ensures HasZone(inserted.value, l.zone) {
      HasZoneAppend(db.zones, [NewZone(zoneName, user, now, isLocked)], l.zone);
    }
    db.zones := inserted.value;
  }

  /** `delete_zone`: `DELETE FROM ZONES WHERE ZONE = ?`, whose foreign-key cascade
      deletes the zone's Lock rows. The result is `total_changes > 0`, which holds
      exactly when a row named `zoneName` existed. */
  method DeleteZone(db: Db, zoneName: string) returns (deleted: bool)
    requires db.Valid()
    modifies db
    ensures db.Valid()
    ensures deleted <==> old(HasZone(db.zones, zoneName))
    ensures db.zones == ZonesExcept(old(db.zones), zoneName)
    ensures db.locks == LocksExcept(old(db.locks), zoneName)
    ensures !HasZone(db.zones, zoneName)
    ensures forall l :: l in db.locks ==> l.zone != zoneName
    ensures !deleted ==> db.zones == old(db.zones) && db.locks == old(db.locks)
    ensures db.metiers == old(db.metiers) && db.tables == old(db.tables)
  {
    var zones' := ZonesExcept(db.zones, zoneName);
    var locks' := LocksExcept(db.locks, zoneName);
    var changes := |db.zones| - |zones'|;
    assert !HasZone(db.zones, zoneName) ==> locks' == db.locks;
    db.zones, db.locks := zones', locks';
    deleted := changes > 0;
  }

  /** `reserve_zone`: appends a Lock row, then sets `IsLocked = 1`, whatever the zone's
      previous state. On an unknown zone the foreign key refuses the Lock row and
      nothing is committed. */
  method ReserveZone(db: Db, zoneName: string, user: string, now: string)
    requires db.Valid()
    modifies db
    ensures db.Valid()
    ensures old(HasZone(db.zones, zoneName)) ==>
              db.locks == old(db.locks) + [LockEntry(zoneName, user, now)] &&
              db.zones == SetIsLocked(old(db.zones), zoneName, 1) &&
              FlagIs(db.zones, zoneName, 1)
    ensures !old(HasZone(db.zones, zoneName)) ==> db.zones == old(db.zones) && db.locks == old(db.locks)
    ensures db.metiers == old(db.metiers) && db.tables == old(db.tables)
  {
    var inserted := InsertLock(db.zones, db.locks, LockEntry(zoneName, user, now));
    if inserted.Err? {
      return;
    }
    var zones' := SetIsLocked(db.zones, zoneName, 1);
    SetIsLockedSetsFlag(db.zones, zoneName, 1);
    db.zones, db.locks := zones', inserted.value;
  }

  /** `unreserve_zone`: appends a Lock row of the same shape as `reserve_zone`'s, then
      sets `IsLocked = 0`. Earlier Lock rows are kept. */
  method UnreserveZone(db: Db, zoneName: string, user: string, now: string)
    requires db.Valid()
    modifies db
    ensures db.Valid()
    ensures old(HasZone(db.zones, zoneName)) ==>
              db.locks == old(db.locks) + [LockEntry(zoneName, user, now)] &&
              db.zones == SetIsLocked(old(db.zones), zoneName, 0) &&
              FlagIs(db.zones, zoneName, 0)
    ensures !old(HasZone(db.zones, zoneName)) ==> db.zones == old(db.zones) && db.locks == old(db.locks)
    ensures db.metiers == old(db.metiers) && db.tables == old(db.tables)
  {
    var inserted := InsertLock(db.zones, db.locks, LockEntry(zoneName, user, now));
    if inserted.Err? {
      return;
    }
    var zones' := SetIsLocked(db.zones, zoneName, 0);
    SetIsLockedSetsFlag(db.zones, zoneName, 0);
    db.zones, db.locks := zones', inserted.value;
  }

  /** `free_zone`: deletes every Lock row of the zone, then sets `IsLocked = 0`.
      Neither statement can raise, so both are always committed; on an unknown
      name they touch nothing. */
  method FreeZone(db: Db, zoneName: string)
    requires db.Valid()
    modifies db
    ensures db.Valid()
    ensures db.locks == LocksExcept(old(db.locks), zoneName)
    ensures db.zones == SetIsLocked(old(db.zones), zoneName, 0)
    ensures FlagIs(db.zones, zoneName, 0)
    ensures forall l :: l in db.locks ==> l.zone != zoneName
    ensures forall l :: l in old(db.locks) && l.zone != zoneName ==> l in db.locks
    ensures !old(HasZone(db.zones, zoneName)) ==> db.zones == old(db.zones) && db.locks == old(db.locks)
    ensures db.metiers == old(db.metiers) && db.tables == old(db.tables)
  {
    var locks' := LocksExcept(db.locks, zoneName);
    var zones' := SetIsLocked(db.zones, zoneName, 0);
    SetIsLockedSetsFlag(db.zones, zoneName, 0);
    db.zones, db.locks := zones', locks';
  }

  function SameZone(name: string): ZoneRow -> bool
  {
    (z: ZoneRow) => z.zone == name
  }

  /** `list_zone`: `SELECT * FROM ZONES WHERE ZONE = ?`. */
  function ListZone(zones: seq<ZoneRow>, zone: string): (rows: seq<ZoneRow>)
    ensures forall z :: z in rows <==> z in zones && z.zone == zone
    ensures rows == [] <==> !HasZone(zones, zone)
  {
    var rows := Filter(SameZone(zone), zones);
    assert rows != [] ==> rows[0] in rows;
    rows
  }

  /** Zone names are unique, so `list_zone` returns at most one row: the zone's own. */
  lemma ListZoneIsTheZone(zones: seq<ZoneRow>, zone: string)
    ensures ZoneNamesUnique(zones) ==> |ListZone(zones, zone)| <= 1
    ensures ZoneNamesUnique(zones) ==>
              forall z :: z in zones && z.zone == zone ==> ListZone(zones, zone) == [z]
  {
    if ZoneNamesUnique(zones) {
      var rows := ListZone(zones, zone);
      FilterKeyUnique(ZoneKey, SameZone(zone), zones);
      AtMostOneWithKey(ZoneKey, rows, zone);
      forall z | z in zones && z.zone == zone ensures rows == [z] {
        assert z in rows;
      }
    }
  }

  /** `list_all_zone`: `SELECT * FROM ZONES`, every row in table order. */
  function ListAllZone(zones: seq<ZoneRow>): (rows: seq<ZoneRow>)
    ensures |rows| == |zones|
    ensures forall i :: 0 <= i < |rows| ==> rows[i] == zones[i]
  {
    zones
  }

  /** The `ZONE` column of ZONES, in table order. */
  function ZoneNames(zones: seq<ZoneRow>): (names: seq<string>)
    ensures |names| == |zones|
    ensures forall i :: 0 <= i < |zones| ==> names[i] == zones[i].zone
    ensures forall n :: n in names <==> HasZone(zones, n)
  {
    var names := seq(|zones|, i requires 0 <= i < |zones| => zones[i].zone);
    assert forall n :: n in names ==> HasZone(zones, n) by {
      forall n | n in names ensures HasZone(zones, n) {
        var i :| 0 <= i < |names| && names[i] == n;
        assert zones[i] in zones;
      }
    }
    assert forall n :: HasZone(zones, n) ==> n in names by {
      forall n | HasZone(zones, n) ensures n in names {
        var z :| z in zones && z.zone == n;
        var i :| 0 <= i < |zones| && zones[i] == z;
        assert names[i] == n;
      }
    }
    names
  }

  function MatchesLike(pattern: string): string -> bool
  {
    (n: string) => Like(pattern, n)
  }

  /** `get_zones_like`: `SELECT ZONE FROM ZONES WHERE ZONE LIKE '%' || s || '%'`, the
      names (SQL leaves their order open; the model keeps table order). */
  function GetZonesLike(zones: seq<ZoneRow>, searchString: string): (names: seq<string>)
    ensures forall n :: n in names <==> HasZone(zones, n) && Like(ContainsPattern(searchString), n)
    ensures IsSubseq(names, ZoneNames(zones))
  {
    FilterIsSubseq(MatchesLike(ContainsPattern(searchString)), ZoneNames(zones));
    Filter(MatchesLike(ContainsPattern(searchString)), ZoneNames(zones))
  }

  /** For a search string without LIKE wildcards, `get_zones_like` finds exactly the
      zones whose name contains it, up to ASCII case. */
  lemma GetZonesLikeIsSubstringSearch(zones: seq<ZoneRow>, searchString: string)
    requires NoWildcards(searchString)
    ensures forall n :: n in GetZonesLike(zones, searchString) <==> HasZone(zones, n) && ContainsCI(n, searchString)
  {
    forall n {
      LikeContainsIsSubstring(searchString, n);
    }
  }

  /** The empty search string lists every zone. */
  lemma GetZonesLikeEmptyListsAll(zones: seq<ZoneRow>)
    ensures GetZonesLike(zones, "") == ZoneNames(zones)
  {
    forall n ensures MatchesLike(ContainsPattern(""))(n) {
      EmptySearchMatchesAll(n);
    }
  }

  /** `bulk_register_zone`'s batch goes in: no name in it is taken, by the table or by
      another tuple of the batch. */
  ghost predicate BatchInsertable(zones: seq<ZoneRow>, batch: seq<ZoneRow>)
  {
    (forall k :: 0 <= k < |batch| ==> !HasZone(zones, batch[k].zone)) && ZoneNamesUnique(batch)
  }

  /** On a table whose names are unique, a batch goes in exactly when the names of
      table and batch together stay unique. */
  lemma {:induction false} BatchInsertableIffUnique(zones: seq<ZoneRow>, batch: seq<ZoneRow>)
    requires ZoneNamesUnique(zones)
    ensures BatchInsertable(zones, batch) <==> ZoneNamesUnique(zones + batch)
  {
    var all := zones + batch;
    if BatchInsertable(zones, batch) {
      forall i, j | 0 <= i < j < |all| ensures all[i].zone != all[j].zone {
        if j >= |zones| {
          assert all[j] == batch[j - |zones|];
          if i < |zones| {
            assert zones[i] in zones;
          } else {
            assert all[i] == batch[i - |zones|];
          }
        }
      }
    }
    if ZoneNamesUnique(all) {
      forall k | 0 <= k < |batch| ensures !HasZone(zones, batch[k].zone) {
        forall z | z in zones ensures z.zone != batch[k].zone {
          var i :| 0 <= i < |zones| && zones[i] == z;
          assert all[i] == z && all[|zones| + k] == batch[k];
        }
      }
      forall i, j | 0 <= i < j < |batch| ensures batch[i].zone != batch[j].zone {
        assert all[|zones| + i] == batch[i] && all[|zones| + j] == batch[j];
      }
    }
  }

  /** `bulk_register_zone`: `executemany` inserts the tuples one after the other; the
      first refused tuple raises `IntegrityError` and nothing of the batch is committed. */
  method BulkRegisterZone(db: Db, batch: seq<ZoneRow>)
    requires db.Valid()
    modifies db
    ensures db.Valid()
    ensures BatchInsertable(old(db.zones), batch) ==> db.zones == old(db.zones) + batch
    ensures !BatchInsertable(old(db.zones), batch) ==> db.zones == old(db.zones)
    ensures db.locks == old(db.locks) && db.metiers == old(db.metiers) && db.tables == old(db.tables)
  {
    var staged := db.zones;
    var i := 0;
    while i < |batch|
      invariant 0 <= i <= |batch|
      invariant unchanged(db)
      invariant staged == db.zones + batch[..i]
      invariant BatchInsertable(db.zones, batch[..i])
    {
      var inserted := InsertZone(staged, batch[i]);
      if inserted.Err? {
        HasZoneAppend(db.zones, batch[..i], batch[i].zone);
        if HasZone(batch[..i], batch[i].zone) {
          var z :| z in batch[..i] && z.zone == batch[i].zone;
          var k :| 0 <= k < i && batch[..i][k] == z;
          assert batch[k].zone == batch[i].zone;
        }
        return;
      }
      HasZoneAppend(db.zones, batch[..i], batch[i].zone);
      assert batch[..i + 1] == batch[..i] + [batch[i]];
      forall k | 0 <= k < i ensures batch[k].zone != batch[i].zone {
        assert batch[..i][k] in batch[..i];
      }
      staged := inserted.value;
      i := i + 1;
    }
    assert batch[..i] == batch;
    BatchInsertableIffUnique(db.zones, batch);
    forall l | l in db.locks ensures HasZone(staged, l.zone) {
      HasZoneAppend(db.zones, batch, l.zone);
    }
    db.zones := staged;
  }

  /** The tuple `bulk_zone_from_forum` builds for one thread. */
  function ThreadZone(threadName: string, now: string): ZoneRow
  {
    ZoneRow(threadName, 0, now, "BOT")
  }

  /** The tuples `bulk_zone_from_forum` builds, one per thread, in thread order. */
  function ForumBatch(threads: seq<string>, now: string): (rows: seq<ZoneRow>)
    ensures |rows| == |threads|
  {
    seq(|threads|, k requires 0 <= k < |threads| => ThreadZone(threads[k], now))
  }

  /** The loop of `bulk_zone_from_forum`. */
  method ForumZoneRows(threads: seq<string>, now: string) returns (rows: seq<ZoneRow>)
    ensures rows == ForumBatch(threads, now)
    ensures forall k :: 0 <= k < |threads| ==> rows[k] == ZoneRow(threads[k], 0, now, "BOT")
  {
    rows := [];
    for i := 0 to |threads|
      invariant |rows| == i
      invariant forall k :: 0 <= k < i ==> rows[k] == ThreadZone(threads[k], now)
    {
      rows := rows + [ThreadZone(threads[i], now)];
    }
  }

  /** `bulk_zone_from_forum`: registers one zone per thread of the forum channel through
      `bulk_register_zone`, and does nothing when the channel has no thread. */
  method BulkZoneFromForum(db: Db, threads: seq<string>, now: string)
    requires db.Valid()
    modifies db
    ensures db.Valid()
    ensures BatchInsertable(old(db.zones), ForumBatch(threads, now)) ==>
              db.zones == old(db.zones) + ForumBatch(threads, now)
    ensures !BatchInsertable(old(db.zones), ForumBatch(threads, now)) ==> db.zones == old(db.zones)
    ensures threads == [] ==> db.zones == old(db.zones)
    ensures db.locks == old(db.locks) && db.metiers == old(db.metiers) && db.tables == old(db.tables)
  {
    var rows := ForumZoneRows(threads, now);
    if |rows| > 0 {
      BulkRegisterZone(db, rows);
    }
  }
}
