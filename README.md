# Zone reservation registry of the LGB Dofus Discord bot, in Dafny

The bot keeps a SQLite database, `lbg.db`, with three tables:
- `ZONES`: the zones a guild can place a tax collector ("percepteur") in. Each has a unique name, an `IsLocked` flag, a date and a creator.
- `Lock`: a log of who reserved or released which zone, and when. A foreign key ties each row to `ZONES` and cascades on delete.
- `METIERS`: each member's professions ("métiers") with a level. The (Pseudo, Metier) pair is unique.

Every operation opens its own connection. Each operation that writes turns foreign keys on (`PRAGMA foreign_keys = ON`) and runs one to three SQL statements. Most then either commit, or catch `IntegrityError` and close without committing, which rolls the statements back; `delete_zone` and `metier.delete` have no `except` and always commit. The zone reads (`list_zone`, `list_all_zone`, `get_zones_like`) run one SELECT and close. `list_artisans` and `list_metiers_by_user` run one SELECT and return `None` on any `sqlite3.Error`.

This project models those operations:
- the zone registry of `commands/utils/percepteur.py`;
- its earlier copy, `percepteur.py`;
- the profession operations of `metier.py`;
- the `/percepteur` command's autocomplete and action dispatch (`commands/percepteur.py`).

It also models the schema that `commands/utils/sql.py` creates, and proves what each operation does to the three tables.

Modules:
- `Seqs`: order-preserving `Filter`, the shape of every `SELECT ... WHERE`. It comes with its subsequence and key-uniqueness lemmas.
- `Text`: ASCII case folding and SQLite's `LIKE` operator, where `%` matches any run of characters, `_` matches one, and there is no ESCAPE clause. It includes the proofs that the search pattern `'%' + s + '%'` is a case-insensitive substring test when `s` has no wildcard, and that any name starting with `s` matches it, wildcards included.
- `Schema`: the row datatypes, the constraints (`ZoneNamesUnique`, `MetierPairsUnique`, `LocksReferenceZones`) and one function per SQL statement. An INSERT that a constraint refuses returns `Err`. The class `Db` holds the three tables as sequences. Its `Valid()` is "schema created and every constraint holds", and `RunInitSql` establishes it.
- `ZoneRegistry`, `LegacyRegistry`, `Metiers`, `PercepteurCommand`: one module per source file. Each state-changing operation is a module-level method that takes the `Db`. It computes the statements' effect on copies of the tables and installs them only when no statement raised. Each such method keeps `Valid()` and states its whole new state, including "nothing else changes". The reads are pure functions of the tables.
- `Scenarios`: call sequences that show the reservation policy the code actually has.

The model follows the code, not a stricter policy:
- `reserve_zone` does not refuse a zone that is already locked.
- `unreserve_zone` appends to the log and sets the flag to 0 without checking the flag.
- `free_zone` wipes the zone's log.
- `bulk_register_zone` is all-or-nothing: a single bad tuple rejects the whole batch.
- `metier.delete` deletes from `ZONES` (see Findings).

A stricter policy would reject a reservation of a held zone, reject a release of a free one, and skip only the bad tuples of a bulk import. The code does none of this, so neither does the model.

The clock (`datetime.now()`) is the `now` parameter of each operation that stamps a row. The forum channel of `bulk_zone_from_forum` is the sequence of its thread names.

## Model

| member | source | states |
|---|---|---|
| `Schema.InsertZone` | commands/utils/sql.py:23-30 | An INSERT into ZONES succeeds exactly when the name is new. On success it appends the row, and the names stay unique. A taken name raises the UNIQUE violation. |
| `Schema.InsertLock` | commands/utils/sql.py:33-40 | An INSERT into Lock succeeds exactly when its zone exists, because of the foreign key with `foreign_keys = ON`. On success it appends the row, and every Lock row still names a zone. |
| `Schema.SetIsLocked` | commands/utils/percepteur.py:61-64 | `UPDATE ZONES SET IsLocked = v WHERE ZONE = name` changes only the flag of the rows with that name. It keeps every name, so uniqueness and the foreign key are preserved. It is the identity when no row has the name. |
| `Schema.ZonesExcept` | commands/utils/percepteur.py:34 | `DELETE FROM ZONES WHERE ZONE = name` leaves no row of that name and keeps every other row, in order and with its multiplicity. The table shrinks exactly when the name existed, and names stay unique. |
| `Schema.LocksExcept` | commands/utils/sql.py:39 | Deleting a zone's Lock rows, by `ON DELETE CASCADE` or by `free_zone`'s DELETE, keeps exactly the other zones' rows, in order, with every copy of a repeated row. It is the identity when the zone has no rows. |
| `Schema.InsertMetier` | commands/utils/sql.py:12-20 | An INSERT into METIERS succeeds exactly when the (Pseudo, Metier) pair is new, and pairs stay unique. |
| `Schema.SetLevel` | metier.py:55-62 | The UPDATE of `update` changes only `Lvl` and `DateUpdated` of the row matching both Pseudo and Metier. It keeps every key and `DateCreated`, and it is the identity when no row matches. |
| `Schema.MetiersExcept` | metier.py:35 | The DELETE that `delete` evidently intends removes exactly the (Pseudo, Metier) row. Every other registration is kept, in order. |
| `Schema.Db.constructor` | commands/utils/sql.py:5 | A newly created database file has no tables and no rows. |
| `Schema.Db.RunInitSql` | commands/utils/sql.py:4-47 | After `run_init_sql` all three tables exist and every constraint holds. `IF NOT EXISTS` leaves existing tables and all their rows intact. |
| `Text.ContainsPattern` | commands/utils/percepteur.py:155 | The search pattern is the search string wrapped in `%` on both sides: two characters longer, `%` at each end, and the search string in between. |
| `Text.LikeContainsIsSubstring` | commands/utils/percepteur.py:154-155 | `name LIKE '%' + s + '%'` holds exactly when `s` occurs in `name` up to ASCII case, for `s` without wildcards. |
| `Text.StartsWithIsFoundByLike` | commands/percepteur.py:40-41 | A name that starts with `s` up to case matches `'%' + s + '%'`, even when `s` contains `%` or `_`. |
| `Text.EmptySearchMatchesAll` | commands/utils/percepteur.py:155 | The empty search string matches every name. |
| `ZoneRegistry.LockedFlag` | commands/utils/percepteur.py:17 | `int(is_locked)` is 0 or 1, and it is 1 exactly when `is_locked` is true. |
| `ZoneRegistry.RegisterZone` | commands/utils/percepteur.py:8-24 | A new name adds exactly one row `(name, int(is_locked), now, user)`, with `is_locked` defaulting to false. A taken name leaves every table unchanged. |
| `ZoneRegistry.DeleteZone` | commands/utils/percepteur.py:28-44 | Returns true exactly when the zone existed. Afterwards no zone of that name is left, and by cascade none of its Lock rows. Everything else is kept. |
| `ZoneRegistry.ReserveZone` | commands/utils/percepteur.py:47-71 | On an existing zone it appends `(zone, user, now, user)` to Lock and sets `IsLocked` to 1, whatever its previous value. On an unknown zone the foreign key fails and nothing changes. |
| `ZoneRegistry.UnreserveZone` | commands/utils/percepteur.py:74-96 | On an existing zone it appends a Lock row of the same shape, keeps the earlier ones, and sets `IsLocked` to 0. An unknown zone changes nothing. |
| `ZoneRegistry.FreeZone` | commands/utils/percepteur.py:100-123 | Deletes every Lock row of the zone and sets its `IsLocked` to 0. Other zones and their Lock rows are untouched. On an unknown name nothing changes. |
| `ZoneRegistry.ListZone` | commands/utils/percepteur.py:126-135 | Returns exactly the rows whose name equals the argument. The result is empty exactly when no zone has that name. |
| `ZoneRegistry.ListZoneIsTheZone` | commands/utils/percepteur.py:130 | Whenever names are unique, `list_zone` returns at most one row, and that row is the zone's own. |
| `ZoneRegistry.ListAllZone` | commands/utils/percepteur.py:138-146 | Returns every row of ZONES, in table order. |
| `ZoneRegistry.ZoneNames` | commands/utils/percepteur.py:158 | `[row[0] for row in rows]`: the name column in table order. It contains exactly the registered names. |
| `ZoneRegistry.GetZonesLike` | commands/utils/percepteur.py:149-162 | Returns exactly the registered names that match `'%' + s + '%'`. The model lists them in table order; see Left out. |
| `ZoneRegistry.GetZonesLikeIsSubstringSearch` | commands/utils/percepteur.py:154-158 | For a search string without wildcards, the result is exactly the zones whose name contains it up to ASCII case. |
| `ZoneRegistry.GetZonesLikeEmptyListsAll` | commands/utils/percepteur.py:155 | The empty search string returns every zone name. |
| `ZoneRegistry.BatchInsertableIffUnique` | commands/utils/percepteur.py:178-181 | On a consistent table, a batch is insertable exactly when table names plus batch names stay unique. A batch name must be new to the table and to the rest of the batch. |
| `ZoneRegistry.BulkRegisterZone` | commands/utils/percepteur.py:167-187 | All-or-nothing. If any tuple's name is taken, by the table or by another tuple, ZONES is unchanged. Otherwise every tuple is appended as given, in order. |
| `ZoneRegistry.ForumBatch` | commands/utils/percepteur.py:199-200 | The batch has one tuple per thread. |
| `ZoneRegistry.ForumZoneRows` | commands/utils/percepteur.py:196-200 | The loop builds `(thread name, 0, now, 'BOT')` for each thread, in thread order. |
| `ZoneRegistry.BulkZoneFromForum` | commands/utils/percepteur.py:190-205 | Registers that batch through `bulk_register_zone`, all-or-nothing. With no threads it inserts nothing. |
| `LegacyRegistry.RegisterZone` | percepteur.py:9-25 | A new name adds one row. A taken name leaves the tables unchanged. |
| `LegacyRegistry.DeleteZone` | percepteur.py:29-45 | Returns true exactly when the zone existed. It removes the zone's row and its Lock rows, and keeps everything else. |
| `LegacyRegistry.ReserveZone` | percepteur.py:49-73 | Appends a Lock row and sets `IsLocked` to 1 without checking the prior state. An unknown zone changes nothing. |
| `LegacyRegistry.FreeZone` | percepteur.py:77-100 | Removes all Lock rows of the zone and sets `IsLocked` to 0. All other rows are unchanged. |
| `LegacyRegistry.ListZone` | percepteur.py:103-112 | Returns the rows named exactly as the argument, at most one on a consistent table. |
| `LegacyRegistry.ListAllZone` | percepteur.py:114-122 | Returns every row, in table order. |
| `Metiers.Register` | metier.py:9-25 | A new (user, metier) pair adds one row `(user, metier, lvl, now, now)`, so `DateCreated` equals `DateUpdated`. A registered pair raises `IntegrityError`, which is caught, and the table is unchanged. |
| `Metiers.Delete` | metier.py:29-43 | As written, it deletes the ZONES row named `metier`, with its Lock rows by cascade, and never touches METIERS. It returns true exactly when such a zone existed. |
| `Metiers.DeleteProfession` | metier.py:29-43 | Corrected `delete`: it removes the METIERS row of (user, metier) and returns true exactly when it existed. Zones and the lock log are unchanged. |
| `Metiers.Update` | metier.py:47-63 | Only `Lvl` and `DateUpdated` of the matching row change. If no row matches, nothing changes. |
| `Metiers.UpdateShowsInListing` | metier.py:55-62 | After `update`, the pair's row in the user's listing carries the new level and date. The pair is registered afterwards exactly when it was before. |
| `Metiers.ListArtisans` | metier.py:72-95 | Returns exactly the rows whose Metier equals the argument and whose `Lvl` is strictly greater than `lvl`, in table order. |
| `Metiers.ListMetiersByUser` | metier.py:99-117 | Returns exactly the rows whose Pseudo equals the argument. The model lists them in table order; see Left out. |
| `Metiers.DeleteAsWrittenKeepsProfession` | metier.py:35 | On a database with Alice's "Bucheron" registration and no zones, the as-written `delete("Bucheron", "Alice")` returns false, and Alice still has the profession. |
| `Metiers.DeleteProfessionRemovesIt` | metier.py:29-43 | On the same database, the corrected delete returns true, and Alice has no profession left. |
| `PercepteurCommand.SuggestedZones` | commands/percepteur.py:40-41 | Returns an order-preserving sublist of `get_zones_like(current)`. Every suggested name is a zone that starts with `current`, both lowercased. |
| `PercepteurCommand.ZoneAutocomplete` | commands/percepteur.py:38-42 | One choice per suggested zone, in order, with name and value both equal to the zone name. |
| `PercepteurCommand.SuggestionsArePrefixMatches` | commands/percepteur.py:40-41 | The suggestions are exactly the zone names that start with `current` up to ASCII case, in the order `get_zones_like` gives them. The `LIKE` pre-filter never hides one. |
| `PercepteurCommand.EmptyCurrentSuggestsAll` | commands/percepteur.py:41 | With `current` empty, every zone is suggested. |
| `PercepteurCommand.PercepteurMenu` | commands/percepteur.py:20-36 | Only `reserve_percepteur` with a zone calls the registry, with the effect of `reserve_zone`. Every other action changes nothing. `reserve_zone` returns nothing, so the reply is always "Invalid action.". |
| `Scenarios.ReserveHeldZone` | commands/utils/percepteur.py:47-71 | A second reservation of a held zone, by another user, is accepted. Both rows are logged and the flag stays 1. |
| `Scenarios.ReserveUnreserveFree` | commands/utils/percepteur.py:74-123 | Reserve then unreserve leaves the flag at 0 with both log rows in order. `free_zone` then empties the log. |
| `Scenarios.BulkImportWithDuplicate` | commands/utils/percepteur.py:167-187 | Importing [A, B, A] while A exists creates nothing, not even B. |

## Left out

- SQLite mechanics: the connection, the cursor, `PRAGMA foreign_keys = ON`, commit and close. Each call is one atomic transition, and an `IntegrityError` means "no change". Foreign keys are enforced on every write, because every operation that writes turns them on; the reads cannot break them.
- Row IDs: the `ID INTEGER PRIMARY KEY AUTOINCREMENT` column of each table is not modelled.
- `ZoneRegistry.ListZone`, `ZoneRegistry.ListAllZone`, `LegacyRegistry.ListZone`, `LegacyRegistry.ListAllZone`: the rows they return have no `ID` column. `SELECT *` returns one.
- Logging and the clock. Every `logging` call is left out, and `datetime.now()` is the `now` parameter, taken as an already formatted string.
- Concurrency: calls from different users interleaving on the database file. Only sequential calls are modelled. The code has no check-then-act step to protect.
- The `Lvl`/`Level` column mismatch: `metier.py` addresses `Lvl`, but `commands/utils/sql.py:16` creates `Level`. Against that schema the statements raise `OperationalError`, which `register` and `update` do not catch, and for which `list_artisans` and `list_metiers_by_user` return `None`. The table is modelled as `metier.py` addresses it, and the `OperationalError` path is left out.
- Operations on a database that `run_init_sql` has not set up fail with "no such table". Every operation requires `Db.Valid()`, which includes the schema. `main.py` runs `run_init_sql` before the bot starts.
- `PercepteurCommand.SuggestedZones`: the `.lower()` calls fold only ASCII letters here. Python also folds non-ASCII letters, so the model and the source can differ for names with non-ASCII capitals. SQLite's `LIKE` folds only ASCII, exactly as modelled.
- `ZoneRegistry.GetZonesLike`: the query at commands/utils/percepteur.py:154 has no `ORDER BY`, so SQL leaves the order of the names open. SQLite will likely answer it from the index behind `UNIQUE(ZONE)`, in name order. The model fixes table (insertion) order instead. Which names are returned is exact; their order is not promised. The same holds for the suggestions of `PercepteurCommand.SuggestedZones` and `PercepteurCommand.ZoneAutocomplete`, which keep that order.
- `Metiers.ListMetiersByUser`: the query at metier.py:105-107 has no `ORDER BY`; SQLite will likely use the `(Pseudo, Metier)` index and return the rows in Metier order. The model fixes table order. Which rows are returned is exact; their order is not promised.
- `ZoneRegistry.BulkRegisterZone`: the tuples are `ZONES` rows. Tuples holding `None`, of the wrong length, or with a non-integer `IsLocked` (SQLite type affinity) are not modelled.
- `ON UPDATE CASCADE` on `Lock.ZONE`: no operation renames a zone, so it never fires.
- `IsLocked`'s `DEFAULT 0` never applies: every INSERT supplies the column, and `register_zone`'s `is_locked=False` default gives the 0.
- The Discord side: command registration, choices, embeds and `send_message`, the admin allow-list, help text, and `main.py`, `commands/help.py`, `commands/metier.py`, `commands/admin.py` and `admin.py`. These are not part of this model. The `None` zone of `percepteur_menu` is handled as the `NOT NULL` failure it causes, which changes nothing.

## Findings

| source | as written | input that shows it | evidently intended | confidence | as-written member | corrected member |
|---|---|---|---|---|---|---|
| metier.py:35 | `delete(metier, user)` runs `DELETE FROM ZONES WHERE ZONE = ?` with the profession name, copied from `delete_zone` | A database holding Alice's "Bucheron" registration and no zones. `delete("Bucheron", "Alice")` returns False and the registration stays; a zone named "Bucheron", if any, would be deleted instead | Delete the METIERS row of (user, metier) and report whether it existed, as the `user` parameter and the log messages say | high, not executed | `Metiers.Delete`, `Metiers.DeleteAsWrittenKeepsProfession` | `Metiers.DeleteProfession`, `Metiers.DeleteProfessionRemovesIt` |
