# kodi2jellyfin, modelled in Dafny

`kodi2jellyfin` copies per-file "watched" state from a Kodi export into a
Jellyfin library database. It matches items across the two systems by
filesystem path. This project models its reconciliation pass:

- a Kodi watch record (`KodiWatched`) and its path, which is the folder and
  the file name concatenated with no separator handling;
- the skip rule `IsSkipped`: the path is `"/"`, or the folder starts with
  `"plugin://"` (`StartsWith` models Python's `str.startswith`);
- the lookup of a path in Jellyfin's `TypedBaseItems` table, which yields the
  item's user-data key;
- the full-row `REPLACE INTO UserDatas`, which always writes
  `isFavorite = false` and `playbackPositionTicks = 0`;
- the list of records that could not be matched, and the single warning
  built from it after the pass.

The two SQLite tables are maps held by the class `Jellyfin.JellyfinData`:

- `library` (`TypedBaseItems`) maps a path to an optional user-data key;
- `userDatas` (`UserDatas`) maps a key to a `UserData` row.

A ghost field `queries` records every path that is looked up. This lets the
model state that skipped records are never looked up.

The engine `Reconcile.Kodi2Jellyfin` is a loop over the decoded records. It
is proved against specification functions: `ApplyAll` gives the user-data
table after a run, `UnmatchedRecords` the deferred list, `LookedUp` the
lookups and `WarningText` the warning. The lemmas in `Properties` state what
a run promises in terms of those functions.

Files: `wrappers.dfy` (Option), `kodi.dfy` (records, path, skip rule),
`jellyfin.dfy` (rows, tables, the store class), `reconcile.dfy` (the pass),
`properties.dfy` (lemmas).

## Model

| member | source | states |
|---|---|---|
| `Kodi.KodiWatched.Path` | kodi2jellyfin.py:29-31 | The path has the folder as its prefix and the file name as the rest. No separator is added or removed. |
| `Kodi.RootPathSplits` | kodi2jellyfin.py:164-165 | The path is `"/"` exactly when (folder, file name) is (`"/"`, `""`) or (`""`, `"/"`). |
| `Kodi.PluginFolderSkipped` | kodi2jellyfin.py:164-167 | A folder starting with `"plugin://"` makes the record skipped, whatever its file name. Its path then starts with that scheme too. |
| `Kodi.StartsWithIff` | kodi2jellyfin.py:166 | `StartsWith`, the model of Python's `str.startswith`, holds exactly when the string is the prefix followed by some rest. |
| `Kodi.IsSkipped` | kodi2jellyfin.py:164-167 | The skip decision in terms of the record's fields: a record is skipped exactly when (folder, file name) is (`"/"`, `""`) or (`""`, `"/"`), or the folder starts with `"plugin://"`. |
| `Jellyfin.KeyForPath` | kodi2jellyfin.py:84-93 | The lookup gives a key exactly when the path has a row and that row's key is not NULL. When it gives one, it is that row's key. |
| `Jellyfin.ReplacementRow` | kodi2jellyfin.py:103-117 | The written row carries the given key, user, played flag, count and date. It always has `isFavorite` false and `playbackPositionTicks` 0. |
| `Jellyfin.Upserted` | kodi2jellyfin.py:103-117 | A replace adds the key if it is missing and puts the replacement row there. Every other key keeps its row. |
| `Jellyfin.UpsertIdempotent` | kodi2jellyfin.py:103-117 | Replacing the same row twice gives the same table as replacing it once. |
| `Jellyfin.UpsertLastWins` | kodi2jellyfin.py:103-117 | After two replaces at one key, the table is the same as after the second replace alone. |
| `Jellyfin.UpsertForgetsPrior` | kodi2jellyfin.py:103-117 | The row written at a key does not depend on what the table held before. |
| `Jellyfin.JellyfinData.constructor` | kodi2jellyfin.py:60-66 | The store starts with the given items and user-data tables, and no lookups recorded. |
| `Jellyfin.JellyfinData.GetUserDataKeyForPath` | kodi2jellyfin.py:84-93 | Returns `KeyForPath` of the items table. Records the path as looked up. Changes no table. |
| `Jellyfin.JellyfinData.UpsertUserData` | kodi2jellyfin.py:95-117 | The user-data table becomes `Upserted` of its old value. Nothing else changes. |
| `Jellyfin.JellyfinData.GetUserData` | kodi2jellyfin.py:119-136 | Returns the row for the key exactly when the table has one, and `None` otherwise. |
| `Reconcile.Classify` | kodi2jellyfin.py:164-176 | A record is skipped exactly when the skip rule holds. It is unmatched exactly when it is kept and its path has no key. Otherwise it is applied, with the key its path resolves to. |
| `Reconcile.WatchedRow` | kodi2jellyfin.py:178-185 | A matched record writes the run's user id, its play count and its last-played date. `played` is true exactly when the count is positive. No favourite and no resume position. |
| `Reconcile.ApplyRecord` | kodi2jellyfin.py:164-185 | A skipped or unmatched record leaves the table unchanged. A matched record sets its key's row to `WatchedRow` and leaves every other row alone. |
| `Reconcile.ApplyAll` | kodi2jellyfin.py:163-185 | The user-data table after the pass handles the records in order. Every row present before is still present afterwards: the pass never deletes a row. |
| `Reconcile.UnmatchedRecords` | kodi2jellyfin.py:172-176 | The deferred records in input order, never more of them than there are input records. |
| `Reconcile.LookedUp` | kodi2jellyfin.py:164-172 | The paths looked up, in input order, at most one per input record. |
| `Reconcile.PathLines` | kodi2jellyfin.py:189-190 | The warning's lines: at least one character per deferred record, and when there is a deferred record the text starts with a newline. |
| `Reconcile.WarningText` | kodi2jellyfin.py:187-192 | A warning exists exactly when the deferred list is non-empty, and it then starts with the fixed header. |
| `Reconcile.MissingWarning` | kodi2jellyfin.py:187-192 | The `+=` loop builds exactly `WarningText` of the deferred list. |
| `Reconcile.Kodi2Jellyfin` | kodi2jellyfin.py:158-192 | After the loop, the items table is unchanged. The user-data table is `ApplyAll` of the records. The lookups are `LookedUp` of the records. The warning is `WarningText` of the unmatched records. |
| `Properties.ApplyAllAppend` | kodi2jellyfin.py:163-185 | Handling `a` and then `b` gives the same table as handling `a + b`. |
| `Properties.UnmatchedAppend` | kodi2jellyfin.py:172-176 | The unmatched list of `a + b` is that of `a` followed by that of `b`, so input order is kept. |
| `Properties.LookedUpAppend` | kodi2jellyfin.py:163-172 | The lookups for `a + b` are those for `a` followed by those for `b`. |
| `Properties.PathLinesAppend` | kodi2jellyfin.py:189-190 | The warning lines for `a + b` are those for `a` followed by those for `b`. |
| `Properties.ReadyInsert` | kodi2jellyfin.py:178 | Inserting a record that reaches no upsert keeps every upserted record's last-played date present. |
| `Properties.InertRecordSplice` | kodi2jellyfin.py:164-176 | A record that resolves to no key, wherever it stands, leaves the final table as if it were absent. |
| `Properties.NotDeferredSplice` | kodi2jellyfin.py:172-176 | A record that is not deferred, wherever it stands, leaves the unmatched list as if it were absent. |
| `Properties.SkippedNotLookedUp` | kodi2jellyfin.py:164-172 | A skipped record, wherever it stands, adds no lookup. |
| `Properties.SkippedRecordIsInert` | kodi2jellyfin.py:164-170 | A skipped record, wherever it stands, causes no lookup, no write and no unmatched entry. |
| `Properties.UnmatchedRecordDeferred` | kodi2jellyfin.py:172-176 | A kept record with no key is added to the unmatched list at its place in input order. The final table is the same as without it. |
| `Properties.UnmatchedMembership` | kodi2jellyfin.py:172-176 | A record is on the unmatched list exactly when it is in the input, not skipped, and its path has no key. |
| `Properties.LookedUpMembership` | kodi2jellyfin.py:164-172 | A path is looked up exactly when some record with that path is not skipped. |
| `Properties.ApplyAllOverlays` | kodi2jellyfin.py:163-185 | The final table is the starting table overlaid with the rows the run writes. Those rows do not depend on the starting table. |
| `Properties.WrittenRows` | kodi2jellyfin.py:179-185 | A run writes rows for exactly the keys its records resolve to. Every written row has its key, the run's user id, `played == (playCount > 0)`, no favourite and no resume position. |
| `Properties.UntouchedRowsKept` | kodi2jellyfin.py:103-117 | A key that no record resolves to keeps its row, whether present or absent. |
| `Properties.LastRecordWins` | kodi2jellyfin.py:163-185 | If no later record resolves to the same key, the final row for that key is the one this record writes. |
| `Properties.RunIdempotent` | kodi2jellyfin.py:163-185 | Running the pass a second time over the same records leaves the table unchanged. |
| `Properties.RecordIdempotent` | kodi2jellyfin.py:179-185 | Handling the same record twice in a row gives the same table as handling it once. |
| `Properties.WarningIffUnmatched` | kodi2jellyfin.py:187-192 | A warning is produced exactly when some input record is unmatched. |
| `Properties.WarningListsEntry` | kodi2jellyfin.py:188-190 | The warning is the fixed header followed, in order, by a newline and each unmatched record's path. The i-th path comes right after the lines of the paths before it. |
| `Properties.MatchedExample` | kodi2jellyfin.py:172-185 | `("/movies/", "foo.mkv", t, 3)` with `"/movies/foo.mkv" -> "key1"` writes `key1: u1, played, 3, t, not favourite, 0 ticks`. Nothing is deferred. |
| `Properties.PluginExample` | kodi2jellyfin.py:164-170 | A record from `"plugin://video/"` causes no lookup, no write and no unmatched entry. |

## Left out

- `main`, argument parsing and logging configuration (kodi2jellyfin.py:195-213) are command-line plumbing.
- The debug log line for skipped records is not modelled. The logged warning is the returned string.
- `KodiWatched.parse` (kodi2jellyfin.py:33-43) is not modelled. It relies on `csv.DictReader`, `datetime.fromisoformat` and `int()`. The pass takes the already-decoded records as input.
- Timestamps are opaque `int` instants. The `adapt_datetime_epoch` adapter (kodi2jellyfin.py:16-20) converts through floating point and is not modelled.
- `get_user_by_name` (kodi2jellyfin.py:73-82) is a query on the users database. The resolved user is an input to `Reconcile.Kodi2Jellyfin`. A missing user, which crashes the source on a `None` row, is not modelled.
- `JellyfinData.open` (kodi2jellyfin.py:139-155), the connections, `_dict_factory`, and commit or rollback are not modelled. The run is modelled as one sequence of map updates; a run that fails is not.
- Reconcile.Kodi2Jellyfin: `assert kodi_watched.last_played is not None` (kodi2jellyfin.py:178) is a precondition (`Ready`). It covers only the records that reach the upsert. A failing assert, which aborts the run, is not modelled.
- Jellyfin.KeyForPath: if `TypedBaseItems` held several rows with one path, `fetchone()` would return an arbitrary one. The map allows one row per path.
- Jellyfin.Upserted: the table is keyed by the item key alone. The real unique constraint of `UserDatas` is not in the source. Because the user is fixed for a run, keying by item key matches what one run does.
- Jellyfin.JellyfinData.GetUserData: SQLite returns booleans as 0 or 1. The model returns the row as stored.
- SQLite integers are 64-bit. Play counts here are unbounded integers.

## Notes on the model

- `UserDataKey` in `TypedBaseItems` can be NULL. The source returns the column value, so a NULL key is treated like a missing row, and the record goes on the unmatched list. The items table is therefore `map<string, Option<string>>`.
- The code requires a last-played date for every matched record, whatever its count (kodi2jellyfin.py:178). The model follows the code.
- The code never checks that `play_count >= 0`. The model allows any integer, and a negative count gives `played = false`.
