/** `percepteur.py` at the repository root: an earlier copy of the zone registry.
    Its six functions have the same statements as their namesakes in
    `commands/utils/percepteur.py`, so each member here runs the `ZoneRegistry` one
    and restates the contract it inherits. */
module LegacyRegistry {
  import opened Schema
  import ZoneRegistry

  /** `register_zone`: one new row for a new name; a taken name leaves every table as it was. */
  method RegisterZone(db: Db, zoneName: string, user: string, now: string, isLocked: bool := false)
    requires db.Valid()
    modifies db
    ensures db.Valid()
    ensures !old(HasZone(db.zones, zoneName)) ==>
              db.zones == old(db.zones) + [ZoneRow(zoneName, if isLocked then 1 else 0, now, user)]
    ensures old(HasZone(db.zones, zoneName)) ==> db.zones == old(db.zones)
    ensures db.locks == old(db.locks) && db.metiers == old(db.metiers) && db.tables == old(db.tables)
  {
    ZoneRegistry.RegisterZone(db, zoneName, user, now, isLocked);
  }

  /** `delete_zone`: true exactly when the zone existed; its row and its Lock rows are gone. */
  method DeleteZone(db: Db, zoneName: string) returns (deleted: bool)
    requires db.Valid()
    modifies db
    ensures db.Valid()
    ensures deleted <==> old(HasZone(db.zones, zoneName))
    ensures !HasZone(db.zones, zoneName)
    ensures forall l :: l in db.locks ==> l.zone != zoneName
    ensures forall z :: z in db.zones <==> z in old(db.zones) && z.zone != zoneName
    ensures forall l :: l in db.locks <==> l in old(db.locks) && l.zone != zoneName
    ensures db.zones == ZonesExcept(old(db.zones), zoneName) && db.locks == LocksExcept(old(db.locks), zoneName)
    ensures db.metiers == old(db.metiers) && db.tables == old(db.tables)
  {
    deleted := ZoneRegistry.DeleteZone(db, zoneName);
  }

  /** `reserve_zone`: appends a Lock row and sets `IsLocked = 1` without looking at the
      zone's state; an unknown zone changes nothing. */
  method ReserveZone(db: Db, zoneName: string, user: string, now: string)
    requires db.Valid()
    modifies db
    ensures db.Valid()
    ensures old(HasZone(db.zones, zoneName)) ==>
              db.locks == old(db.locks) + [LockRow(zoneName, user, now, user)] &&
              db.zones == SetIsLocked(old(db.zones), zoneName, 1)
    ensures !old(HasZone(db.zones, zoneName)) ==> db.zones == old(db.zones) && db.locks == old(db.locks)
    ensures db.metiers == old(db.metiers) && db.tables == old(db.tables)
  {
    ZoneRegistry.ReserveZone(db, zoneName, user, now);
  }

  /** `free_zone`: removes all Lock rows of the zone and sets `IsLocked = 0`; every other
      row is unchanged. */
  method FreeZone(db: Db, zoneName: string)
    requires db.Valid()
    modifies db
    ensures db.Valid()
    ensures db.locks == LocksExcept(old(db.locks), zoneName)
    ensures db.zones == SetIsLocked(old(db.zones), zoneName, 0)
    ensures forall l :: l in db.locks ==> l.zone != zoneName
    ensures !old(HasZone(db.zones, zoneName)) ==> db.zones == old(db.zones) && db.locks == old(db.locks)
    ensures db.metiers == old(db.metiers) && db.tables == old(db.tables)
  {
    ZoneRegistry.FreeZone(db, zoneName);
  }

  /** `list_zone`: the rows whose name is exactly `zone`; at most one on a consistent table. */
  function ListZone(zones: seq<ZoneRow>, zone: string): (rows: seq<ZoneRow>)
    ensures forall z :: z in rows <==> z in zones && z.zone == zone
    ensures ZoneNamesUnique(zones) ==> |rows| <= 1
  {
    ZoneRegistry.ListZoneIsTheZone(zones, zone);
    ZoneRegistry.ListZone(zones, zone)
  }

  /** `list_all_zone`: every row, in table order. */
  function ListAllZone(zones: seq<ZoneRow>): (rows: seq<ZoneRow>)
    ensures |rows| == |zones|
    ensures forall i :: 0 <= i < |rows| ==> rows[i] == zones[i]
  {
    ZoneRegistry.ListAllZone(zones)
  }
}
