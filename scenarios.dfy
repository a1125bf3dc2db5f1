/** Short call sequences against a fresh database that show what the registry of
    `commands/utils/percepteur.py` does where a stricter reservation policy would
    differ: a held zone can be reserved again, a release keeps the history, and a
    bulk import with one bad tuple imports nothing. */
module Scenarios {
  import opened Schema
  import opened ZoneRegistry

  /** A second reservation of a held zone, by someone else, is not refused: both are
      logged and the zone stays locked. */
  method ReserveHeldZone() returns (flag: int, log: seq<LockRow>)
    ensures flag == 1
    ensures log == [LockRow("Bastion", "u1", "t1", "u1"), LockRow("Bastion", "u2", "t2", "u2")]
  {
    var db := new Db();
    db.RunInitSql();
    RegisterZone(db, "Bastion", "u1", "t0");
    assert db.zones == [ZoneRow("Bastion", 0, "t0", "u1")];
    assert HasZone(db.zones, "Bastion") by { assert db.zones[0] in db.zones; }
    ReserveZone(db, "Bastion", "u1", "t1");
    assert HasZone(db.zones, "Bastion") by { assert db.zones[0] in db.zones; }
    ReserveZone(db, "Bastion", "u2", "t2");
    flag := db.zones[0].isLocked;
    log := db.locks;
  }

  /** Reserve then unreserve: the flag is back to 0 and the log holds both events, in
      order; `free_zone` afterwards empties the zone's log. */
  method ReserveUnreserveFree() returns (flag: int, logAfterUnreserve: seq<LockRow>, logAfterFree: seq<LockRow>)
    ensures flag == 0
    ensures logAfterUnreserve == [LockRow("A", "u", "t1", "u"), LockRow("A", "u", "t2", "u")]
    ensures logAfterFree == []
  {
    var db := new Db();
    db.RunInitSql();
    RegisterZone(db, "A", "u", "t0");
    assert HasZone(db.zones, "A") by { assert db.zones[0] in db.zones; }
    ReserveZone(db, "A", "u", "t1");
    assert HasZone(db.zones, "A") by { assert db.zones[0] in db.zones; }
    UnreserveZone(db, "A", "u", "t2");
    flag := db.zones[0].isLocked;
    logAfterUnreserve := db.locks;
    FreeZone(db, "A");
    logAfterFree := db.locks;
  }

  /** Importing [A, B, A] while A is registered: the batch is refused as a whole, so B is
      not created either. */
  method BulkImportWithDuplicate() returns (names: seq<string>)
    ensures names == ["A"]
  {
    var db := new Db();
    db.RunInitSql();
    RegisterZone(db, "A", "u", "t0");
    var batch := [ZoneRow("A", 0, "t1", "BOT"), ZoneRow("B", 0, "t1", "BOT"), ZoneRow("A", 0, "t1", "BOT")];
    assert db.zones == [ZoneRow("A", 0, "t0", "u")];
    assert !BatchInsertable(db.zones, batch) by {
      assert db.zones[0] in db.zones && HasZone(db.zones, batch[0].zone);
    }
    BulkRegisterZone(db, batch);
    names := ZoneNames(db.zones);
  }
}
