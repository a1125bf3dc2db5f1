/** The `/percepteur` slash command of `commands/percepteur.py`: the autocomplete of
    its `zone` argument and the action dispatch of `percepteur_menu`. */
module PercepteurCommand {
  import opened Seqs
  import opened Text
  import opened Schema
  import ZoneRegistry

  datatype Option<T> = None | Some(value: T)

  /** An `app_commands.Choice`: the label shown and the value sent back. */
  datatype Choice = Choice(name: string, value: string)

  const InvalidAction: string := "Invalid action."

  function StartsWithPred(current: string): string -> bool
  {
    (zone: string) => StartsWithCI(zone, current)
  }

  /** The filtering comprehension of `zone_autocomplete`: the names `get_zones_like`
      returns that start with `current`, both lowercased. */
  function SuggestedZones(zones: seq<ZoneRow>, current: string): (names: seq<string>)
    ensures forall n :: n in names ==> HasZone(zones, n) && StartsWithCI(n, current)
    ensures IsSubseq(names, ZoneRegistry.GetZonesLike(zones, current))
  {
    var allZones := ZoneRegistry.GetZonesLike(zones, current);
    FilterIsSubseq(StartsWithPred(current), allZones);
    Filter(StartsWithPred(current), allZones)
  }

  /** `zone_autocomplete`: one choice per suggested zone, its name and its value both
      the zone's name. */
  function ZoneAutocomplete(zones: seq<ZoneRow>, current: string): (choices: seq<Choice>)
    ensures |choices| == |SuggestedZones(zones, current)|
    ensures forall i :: 0 <= i < |choices| ==>
              choices[i].name == choices[i].value == SuggestedZones(zones, current)[i]
  {
    var names := SuggestedZones(zones, current);
    seq(|names|, i requires 0 <= i < |names| => Choice(names[i], names[i]))
  }

  /** The LIKE pre-filter never hides a candidate: the suggestions are exactly the zone
      names that start with `current` up to ASCII case, in the order of `get_zones_like`, whatever
      wildcards `current` contains. */
  lemma SuggestionsArePrefixMatches(zones: seq<ZoneRow>, current: string)
    ensures SuggestedZones(zones, current) == Filter(StartsWithPred(current), ZoneRegistry.ZoneNames(zones))
  {
    var names := ZoneRegistry.ZoneNames(zones);
    forall n | n in names && StartsWithPred(current)(n)
      ensures ZoneRegistry.MatchesLike(ContainsPattern(current))(n)
    {
      StartsWithIsFoundByLike(current, n);
    }
    FilterOfFilter(StartsWithPred(current), ZoneRegistry.MatchesLike(ContainsPattern(current)), names);
  }

  /** With nothing typed yet, every zone is suggested. */
  lemma EmptyCurrentSuggestsAll(zones: seq<ZoneRow>)
    ensures SuggestedZones(zones, "") == ZoneRegistry.ZoneNames(zones)
  {
    SuggestionsArePrefixMatches(zones, "");
    forall n ensures StartsWithPred("")(n) {
      assert n[..0] == "";
    }
  }

  /** `percepteur_menu`: only the `reserve_percepteur` action calls the registry, and only
      with a zone (a missing zone would be inserted as NULL into `Lock.ZONE`, which is
      `NOT NULL`: the `IntegrityError` is caught and nothing changes). `reserve_zone`
      returns `None`, so there is never an embed to send and every action, a
      reservation included, replies "Invalid action.". */
  method PercepteurMenu(db: Db, action: string, zone: Option<string>, user: string, now: string)
    returns (reply: string)
    requires db.Valid()
    modifies db
    ensures db.Valid()
    ensures reply == InvalidAction
    ensures action == "reserve_percepteur" && zone.Some? && old(HasZone(db.zones, zone.value)) ==>
              db.locks == old(db.locks) + [ZoneRegistry.LockEntry(zone.value, user, now)] &&
              db.zones == SetIsLocked(old(db.zones), zone.value, 1)
    ensures action != "reserve_percepteur" || zone.None? || !old(HasZone(db.zones, zone.value)) ==>
              db.zones == old(db.zones) && db.locks == old(db.locks)
    ensures db.metiers == old(db.metiers) && db.tables == old(db.tables)
  {
    if action == "reserve_percepteur" && zone.Some? {
      ZoneRegistry.ReserveZone(db, zone.value, user, now);
    }
    reply := InvalidAction;
  }
}
