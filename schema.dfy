/** The SQLite database `lbg.db` as `commands/utils/sql.py` defines it: the three
    tables, their constraints, and the effect of each SQL statement the bot runs
    against them (an INSERT that a constraint refuses raises `IntegrityError`). */
module Schema {
  import opened Seqs

  datatype Table = METIERS | ZONES | LOCK

  /** The order in which `run_init_sql` executes the CREATE TABLE statements. */
  const InitOrder: seq<Table> := [METIERS, ZONES, LOCK]

  /** A row of ZONES. The AUTOINCREMENT `ID` column is not modelled. */
  datatype ZoneRow = ZoneRow(zone: string, isLocked: int, date: string, createdBy: string)

  /** A row of Lock: who reserved or released which zone, and when. */
  datatype LockRow = LockRow(zone: string, pseudo: string, date: string, createdBy: string)

  /** A row of METIERS, with the columns the queries of `metier.py` address. */
  datatype MetierRow = MetierRow(pseudo: string, metier: string, lvl: int, dateCreated: string, dateUpdated: string)

  /** The two constraint failures the statements below can raise. */
  datatype IntegrityError = UniqueConstraintFailed | ForeignKeyConstraintFailed

  datatype Result<T> = Ok(value: T) | Err(error: IntegrityError)

  function ZoneKey(z: ZoneRow): string { z.zone }

  function MetierKey(m: MetierRow): (string, string) { (m.pseudo, m.metier) }

  /** `Zone TEXT NOT NULL UNIQUE` and `UNIQUE(Zone)`. */
  predicate ZoneNamesUnique(zones: seq<ZoneRow>)
  {
    KeyUnique(ZoneKey, zones)
  }

  /** `UNIQUE(Pseudo, Metier)`. */
  predicate MetierPairsUnique(metiers: seq<MetierRow>)
  {
    KeyUnique(MetierKey, metiers)
  }

  predicate HasZone(zones: seq<ZoneRow>, name: string)
  {
    exists z :: z in zones && z.zone == name
  }

  predicate HasMetier(metiers: seq<MetierRow>, pseudo: string, metier: string)
  {
    exists m :: m in metiers && m.pseudo == pseudo && m.metier == metier
  }

  /** `FOREIGN KEY (ZONE) REFERENCES ZONES (ZONE)`: every Lock row names a zone. */
  predicate LocksReferenceZones(locks: seq<LockRow>, zones: seq<ZoneRow>)
  {
    forall l :: l in locks ==> HasZone(zones, l.zone)
  }

  /** `INSERT INTO ZONES ...`: refused by the UNIQUE constraint when the name is taken. */
  function InsertZone(zones: seq<ZoneRow>, row: ZoneRow): (r: Result<seq<ZoneRow>>)
    ensures r.Ok? <==> !HasZone(zones, row.zone)
    ensures r.Err? ==> r.error == UniqueConstraintFailed
    ensures r.Ok? ==> r.value == zones + [row] && HasZone(r.value, row.zone)
    ensures r.Ok? && ZoneNamesUnique(zones) ==> ZoneNamesUnique(r.value)
  {
    if HasZone(zones, row.zone) then Err(UniqueConstraintFailed)
    else
      var zones' := zones + [row];
      assert zones'[|zones|] == row;
      assert forall i :: 0 <= i < |zones| ==> zones'[i] == zones[i] && zones[i] in zones;
      Ok(zones')
  }

  /** `INSERT INTO Lock ...` with `PRAGMA foreign_keys = ON`: refused unless the zone exists. */
  function InsertLock(zones: seq<ZoneRow>, locks: seq<LockRow>, row: LockRow): (r: Result<seq<LockRow>>)
    ensures r.Ok? <==> HasZone(zones, row.zone)
    ensures r.Err? ==> r.error == ForeignKeyConstraintFailed
    ensures r.Ok? ==> r.value == locks + [row]
    ensures r.Ok? && LocksReferenceZones(locks, zones) ==> LocksReferenceZones(r.value, zones)
  {
    if HasZone(zones, row.zone) then Ok(locks + [row]) else Err(ForeignKeyConstraintFailed)
  }

  /** `UPDATE ZONES SET IsLocked = v WHERE ZONE = name`. */
  function SetIsLocked(zones: seq<ZoneRow>, name: string, v: int): (r: seq<ZoneRow>)
    ensures |r| == |zones|
    ensures forall i :: 0 <= i < |r| ==> r[i].zone == zones[i].zone
    ensures forall i :: 0 <= i < |r| && zones[i].zone == name ==> r[i] == zones[i].(isLocked := v)
    ensures forall i :: 0 <= i < |r| && zones[i].zone != name ==> r[i] == zones[i]
    ensures !HasZone(zones, name) ==> r == zones
    ensures forall n :: HasZone(r, n) <==> HasZone(zones, n)
    ensures ZoneNamesUnique(zones) ==> ZoneNamesUnique(r)
  {
    var r := seq(|zones|, i requires 0 <= i < |zones| =>
                 if zones[i].zone == name then zones[i].(isLocked := v) else zones[i]);
    assert forall n :: HasZone(r, n) ==> HasZone(zones, n) by {
      forall n | HasZone(r, n) ensures HasZone(zones, n) {
        var z :| z in r && z.zone == n;
        var i :| 0 <= i < |r| && r[i] == z;
        assert zones[i] in zones;
      }
    }
    assert forall n :: HasZone(zones, n) ==> HasZone(r, n) by {
      forall n | HasZone(zones, n) ensures HasZone(r, n) {
        var z :| z in zones && z.zone == n;
        var i :| 0 <= i < |zones| && zones[i] == z;
        assert r[i] in r;
      }
    }
    r
  }

  function OtherZone(name: string): ZoneRow -> bool
  {
    (z: ZoneRow) => z.zone != name
  }

  function LockOfOtherZone(name: string): LockRow -> bool
  {
    (l: LockRow) => l.zone != name
  }

  /** `DELETE FROM ZONES WHERE ZONE = name`: every other row is kept, in table order. */
  function ZonesExcept(zones: seq<ZoneRow>, name: string): (r: seq<ZoneRow>)
    ensures !HasZone(r, name)
    ensures forall z :: z in r <==> z in zones && z.zone != name
    ensures forall n :: n != name ==> (HasZone(r, n) <==> HasZone(zones, n))
    ensures |r| < |zones| <==> HasZone(zones, name)
    ensures !HasZone(zones, name) ==> r == zones
    ensures IsSubseq(r, zones)
    ensures forall z: ZoneRow :: z.zone != name ==> multiset(r)[z] == multiset(zones)[z]
    ensures ZoneNamesUnique(zones) ==> ZoneNamesUnique(r)
  {
    FilterIsSubseq(OtherZone(name), zones);
    FilterCounts(OtherZone(name), zones);
    FilterKeyUnique(ZoneKey, OtherZone(name), zones);
    Filter(OtherZone(name), zones)
  }

  /** `DELETE FROM Lock WHERE ZONE = name`, which is also what `ON DELETE CASCADE`
      does to Lock when the zone `name` is deleted. */
  function LocksExcept(locks: seq<LockRow>, name: string): (r: seq<LockRow>)
    ensures forall l :: l in r <==> l in locks && l.zone != name
    ensures IsSubseq(r, locks)
    ensures forall l: LockRow :: l.zone != name ==> multiset(r)[l] == multiset(locks)[l]
    ensures (forall l :: l in locks ==> l.zone != name) ==> r == locks
  {
    FilterIsSubseq(LockOfOtherZone(name), locks);
    FilterCounts(LockOfOtherZone(name), locks);
    Filter(LockOfOtherZone(name), locks)
  }

  /** `INSERT INTO METIERS ...`: refused by `UNIQUE(Pseudo, Metier)` when the pair is taken. */
  function InsertMetier(metiers: seq<MetierRow>, row: MetierRow): (r: Result<seq<MetierRow>>)
    ensures r.Ok? <==> !HasMetier(metiers, row.pseudo, row.metier)
    ensures r.Err? ==> r.error == UniqueConstraintFailed
    ensures r.Ok? ==> r.value == metiers + [row]
    ensures r.Ok? && MetierPairsUnique(metiers) ==> MetierPairsUnique(r.value)
  {
    if HasMetier(metiers, row.pseudo, row.metier) then Err(UniqueConstraintFailed)
    else
      var metiers' := metiers + [row];
      assert metiers'[|metiers|] == row;
      assert forall i :: 0 <= i < |metiers| ==> metiers'[i] == metiers[i] && metiers[i] in metiers;
      Ok(metiers')
  }

  /** `UPDATE METIERS SET Lvl = lvl, DateUpdated = now WHERE Pseudo = pseudo AND Metier = metier`. */
  function SetLevel(metiers: seq<MetierRow>, pseudo: string, metier: string, lvl: int, now: string): (r: seq<MetierRow>)
    ensures |r| == |metiers|
    ensures forall i :: 0 <= i < |r| ==> MetierKey(r[i]) == MetierKey(metiers[i])
    ensures forall i :: 0 <= i < |r| && r[i] != metiers[i] ==> MetierKey(metiers[i]) == (pseudo, metier)
    ensures forall i :: 0 <= i < |r| && MetierKey(metiers[i]) == (pseudo, metier) ==>
              r[i].lvl == lvl && r[i].dateUpdated == now && r[i].dateCreated == metiers[i].dateCreated
    ensures !HasMetier(metiers, pseudo, metier) ==> r == metiers
    ensures MetierPairsUnique(metiers) ==> MetierPairsUnique(r)
  {
    var r := seq(|metiers|, i requires 0 <= i < |metiers| =>
                 if metiers[i].pseudo == pseudo && metiers[i].metier == metier
                 then metiers[i].(lvl := lvl, dateUpdated := now) else metiers[i]);
    assert !HasMetier(metiers, pseudo, metier) ==> r == metiers by {
      if !HasMetier(metiers, pseudo, metier) {
        forall i | 0 <= i < |r| ensures r[i] == metiers[i] {
          assert metiers[i] in metiers;
        }
      }
    }
    r
  }

  function OtherMetier(pseudo: string, metier: string): MetierRow -> bool
  {
    (m: MetierRow) => m.pseudo != pseudo || m.metier != metier
  }

  /** `DELETE FROM METIERS WHERE Pseudo = pseudo AND Metier = metier`. */
  function MetiersExcept(metiers: seq<MetierRow>, pseudo: string, metier: string): (r: seq<MetierRow>)
    ensures !HasMetier(r, pseudo, metier)
    ensures forall m :: m in r <==> m in metiers && MetierKey(m) != (pseudo, metier)
    ensures |r| < |metiers| <==> HasMetier(metiers, pseudo, metier)
    ensures IsSubseq(r, metiers)
    ensures forall m: MetierRow :: MetierKey(m) != (pseudo, metier) ==> multiset(r)[m] == multiset(metiers)[m]
    ensures MetierPairsUnique(metiers) ==> MetierPairsUnique(r)
  {
    FilterIsSubseq(OtherMetier(pseudo, metier), metiers);
    FilterCounts(OtherMetier(pseudo, metier), metiers);
    FilterKeyUnique(MetierKey, OtherMetier(pseudo, metier), metiers);
    Filter(OtherMetier(pseudo, metier), metiers)
  }

  /** The database file. A table that `run_init_sql` has not created yet holds no rows. */
  class Db {
    var tables: set<Table>
    var zones: seq<ZoneRow>
    var locks: seq<LockRow>
    var metiers: seq<MetierRow>

    /** Every constraint of the schema holds. */
    ghost predicate Consistent()
      reads this
    {
      (ZONES !in tables ==> zones == []) &&
      (LOCK !in tables ==> locks == []) &&
      (METIERS !in tables ==> metiers == []) &&
      ZoneNamesUnique(zones) &&
      MetierPairsUnique(metiers) &&
      LocksReferenceZones(locks, zones)
    }

    /** The schema is in place and every constraint holds. */
    ghost predicate Valid()
      reads this
    {
      tables == {METIERS, ZONES, LOCK} && Consistent()
    }

    /** A database file that `sqlite3.connect` has just created: no tables. */
    constructor ()
      ensures Consistent()
      ensures tables == {} && zones == [] && locks == [] && metiers == []
    {
      tables, zones, locks, metiers := {}, [], [], [];
    }

    /** `run_init_sql`: executes each `CREATE TABLE IF NOT EXISTS` in turn. An existing
        table, and every row in it, is left as it was. */
    method RunInitSql()
      requires Consistent()
      modifies this
      ensures Valid()
      ensures tables == old(tables) + {METIERS, ZONES, LOCK}
      ensures zones == old(zones) && locks == old(locks) && metiers == old(metiers)
    {
      var i := 0;
      while i < |InitOrder|
        invariant 0 <= i <= |InitOrder|
        invariant tables == old(tables) + set k | 0 <= k < i :: InitOrder[k]
        invariant zones == old(zones) && locks == old(locks) && metiers == old(metiers)
        invariant Consistent()
      {
        var table := InitOrder[i];
        if table !in tables {
          tables := tables + {table};
        }
        i := i + 1;
      }
      assert (set k | 0 <= k < 3 :: InitOrder[k]) == {METIERS, ZONES, LOCK} by {
        assert InitOrder[0] == METIERS && InitOrder[1] == ZONES && InitOrder[2] == LOCK;
      }
      forall t | t in old(tables) ensures t in {METIERS, ZONES, LOCK} {
        match t
        case METIERS =>
        case ZONES =>
        case LOCK =>
      }
    }
  }
}
