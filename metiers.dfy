/** The profession table operations of `metier.py`, on the METIERS table as its
    queries address it (`Lvl`, `DateCreated`, `DateUpdated`). */
module Metiers {
  import opened Seqs
  import opened Schema
  import ZoneRegistry

  /** `register`: inserts (user, metier, lvl, now, now). A pair that is already
      registered violates `UNIQUE(Pseudo, Metier)`; the `IntegrityError` is caught and
      nothing is committed. */
  method Register(db: Db, metier: string, user: string, lvl: int, now: string)
    requires db.Valid()
    modifies db
    ensures db.Valid()
    ensures !old(HasMetier(db.metiers, user, metier)) ==>
              db.metiers == old(db.metiers) + [MetierRow(user, metier, lvl, now, now)]
    ensures old(HasMetier(db.metiers, user, metier)) ==> db.metiers == old(db.metiers)
    ensures forall m :: m in db.metiers && m !in old(db.metiers) ==>
              m.pseudo == user && m.metier == metier && m.lvl == lvl && m.dateCreated == m.dateUpdated == now
    ensures db.zones == old(db.zones) && db.locks == old(db.locks) && db.tables == old(db.tables)
  {
    var inserted := InsertMetier(db.metiers, MetierRow(user, metier, lvl, now, now));
    if inserted.Err? {
      return;
    }
    db.metiers := inserted.value;
  }

  /** `delete` as written: it runs `DELETE FROM ZONES WHERE ZONE = metier`, so it removes
      the zone that happens to be named like the profession (and, by cascade, that
      zone's Lock rows) and never touches METIERS. */
  method Delete(db: Db, metier: string, user: string) returns (deleted: bool)
    requires db.Valid()
    modifies db
    ensures db.Valid()
    ensures deleted <==> old(HasZone(db.zones, metier))
    ensures db.zones == ZonesExcept(old(db.zones), metier)
    ensures db.locks == LocksExcept(old(db.locks), metier)
    ensures db.metiers == old(db.metiers) && db.tables == old(db.tables)
  {
    deleted := ZoneRegistry.DeleteZone(db, metier);
  }

  /** `delete` as its name, its `user` parameter and its log messages intend it:
      `DELETE FROM METIERS WHERE Pseudo = user AND Metier = metier`, true exactly when
      that registration existed. */
  method DeleteProfession(db: Db, metier: string, user: string) returns (deleted: bool)
    requires db.Valid()
    modifies db
    ensures db.Valid()
    ensures deleted <==> old(HasMetier(db.metiers, user, metier))
    ensures !HasMetier(db.metiers, user, metier)
    ensures forall m :: m in db.metiers <==> m in old(db.metiers) && MetierKey(m) != (user, metier)
    ensures db.metiers == MetiersExcept(old(db.metiers), user, metier)
    ensures db.zones == old(db.zones) && db.locks == old(db.locks) && db.tables == old(db.tables)
  {
    var metiers' := MetiersExcept(db.metiers, user, metier);
    var changes := |db.metiers| - |metiers'|;
    db.metiers := metiers';
    deleted := changes > 0;
  }

  /** `update`: sets `Lvl` and `DateUpdated` of the row of (user, metier); any other row,
      and every row when the pair is not registered, stays as it was. */
  method Update(db: Db, metier: string, user: string, lvl: int, now: string)
    requires db.Valid()
    modifies db
    ensures db.Valid()
    ensures db.metiers == SetLevel(old(db.metiers), user, metier, lvl, now)
    ensures !old(HasMetier(db.metiers, user, metier)) ==> db.metiers == old(db.metiers)
    ensures db.zones == old(db.zones) && db.locks == old(db.locks) && db.tables == old(db.tables)
  {
    db.metiers := SetLevel(db.metiers, user, metier, lvl, now);
  }

  function ArtisanOf(metier: string, lvl: int): MetierRow -> bool
  {
    (m: MetierRow) => m.metier == metier && m.lvl > lvl
  }

  /** `list_artisans`: `SELECT ... WHERE Metier = ? AND Lvl > ?`, in table order. */
  function ListArtisans(metiers: seq<MetierRow>, metier: string, lvl: int): (rows: seq<MetierRow>)
    ensures forall m :: m in rows <==> m in metiers && m.metier == metier && m.lvl > lvl
    ensures IsSubseq(rows, metiers)
  {
    FilterIsSubseq(ArtisanOf(metier, lvl), metiers);
    Filter(ArtisanOf(metier, lvl), metiers)
  }

  function RegisteredBy(pseudo: string): MetierRow -> bool
  {
    (m: MetierRow) => m.pseudo == pseudo
  }

  /** `list_metiers_by_user`: `SELECT ... WHERE Pseudo = ?`. SQL leaves the order open; the model keeps table order. */
  function ListMetiersByUser(metiers: seq<MetierRow>, pseudo: string): (rows: seq<MetierRow>)
    ensures forall m :: m in rows <==> m in metiers && m.pseudo == pseudo
    ensures IsSubseq(rows, metiers)
  {
    FilterIsSubseq(RegisteredBy(pseudo), metiers);
    Filter(RegisteredBy(pseudo), metiers)
  }

  /** After `update`, the pair's listing shows the new level: the row of (user, metier)
      that `list_metiers_by_user` returns carries `lvl`. */
  lemma UpdateShowsInListing(metiers: seq<MetierRow>, metier: string, user: string, lvl: int, now: string)
    ensures forall m :: m in ListMetiersByUser(SetLevel(metiers, user, metier, lvl, now), user) && m.metier == metier ==>
              m.lvl == lvl && m.dateUpdated == now
    ensures HasMetier(metiers, user, metier) <==> HasMetier(SetLevel(metiers, user, metier, lvl, now), user, metier)
  {
    var r := SetLevel(metiers, user, metier, lvl, now);
    forall m | m in r && m.pseudo == user && m.metier == metier ensures m.lvl == lvl && m.dateUpdated == now {
      var i :| 0 <= i < |r| && r[i] == m;
      assert MetierKey(metiers[i]) == MetierKey(r[i]);
    }
    if HasMetier(metiers, user, metier) {
      var m :| m in metiers && m.pseudo == user && m.metier == metier;
      var i :| 0 <= i < |metiers| && metiers[i] == m;
      assert r[i] in r && MetierKey(r[i]) == MetierKey(m);
    }
    if HasMetier(r, user, metier) {
      var m :| m in r && m.pseudo == user && m.metier == metier;
      var i :| 0 <= i < |r| && r[i] == m;
      assert metiers[i] in metiers && MetierKey(r[i]) == MetierKey(metiers[i]);
    }
  }

  /** `delete` as written, on a database holding one registration ("Alice", "Bucheron")
      and no zone: it reports nothing deleted and Alice keeps the profession. */
  method DeleteAsWrittenKeepsProfession() returns (deleted: bool, remaining: seq<MetierRow>)
    ensures !deleted
    ensures remaining == [MetierRow("Alice", "Bucheron", 100, "2024-01-01 10:00:00", "2024-01-01 10:00:00")]
  {
    var db := new Db();
    db.RunInitSql();
    Register(db, "Bucheron", "Alice", 100, "2024-01-01 10:00:00");
    deleted := Delete(db, "Bucheron", "Alice");
    remaining := ListMetiersByUser(db.metiers, "Alice");
    assert db.metiers == [MetierRow("Alice", "Bucheron", 100, "2024-01-01 10:00:00", "2024-01-01 10:00:00")];
    assert remaining == db.metiers by {
      assert forall m :: m in db.metiers ==> RegisteredBy("Alice")(m);
    }
  }

  /** The corrected `delete` on the same database removes the registration. */
  method DeleteProfessionRemovesIt() returns (deleted: bool, remaining: seq<MetierRow>)
    ensures deleted
    ensures remaining == []
  {
    var db := new Db();
    db.RunInitSql();
    Register(db, "Bucheron", "Alice", 100, "2024-01-01 10:00:00");
    assert HasMetier(db.metiers, "Alice", "Bucheron") by {
      assert db.metiers[0] in db.metiers;
    }
    deleted := DeleteProfession(db, "Bucheron", "Alice");
    remaining := ListMetiersByUser(db.metiers, "Alice");
    assert db.metiers == [];
  }
}
