/**
 The reconciliation pass of `kodi2jellyfin` (kodi2jellyfin.py:158-192): one
 walk over the decoded Kodi records that skips add-on and root records,
 resolves every other record's path to a Jellyfin user-data key, replaces
 the user's row for that key, and collects the records it could not resolve
 into one warning emitted after the walk.
 */
module Reconcile {
  import opened Wrappers
  import opened Kodi
  import opened Jellyfin

  /** What the pass does with one record. */
  datatype Outcome = Skipped | Unmatched | Applied(key: string)

  function Classify(items: ItemsTable, w: KodiWatched): (o: Outcome)
    ensures o == Skipped <==> IsSkipped(w)
    ensures o == Unmatched <==> !IsSkipped(w) && KeyForPath(items, w.Path()).None?
    ensures o.Applied? ==> !IsSkipped(w) && KeyForPath(items, w.Path()) == Some(o.key)
  {
    if IsSkipped(w) then Skipped
    else match KeyForPath(items, w.Path())
      case None => Unmatched
      case Some(key) => Applied(key)
  }

  /** Every record that reaches the upsert carries a last-played instant. */
  predicate Ready(items: ItemsTable, records: seq<KodiWatched>)
  {
    forall i | 0 <= i < |records| :: Classify(items, records[i]).Applied? ==> records[i].lastPlayed.Some?
  }

  /** The row a matched record makes the user's row for `key`: the record's
      count and instant, `played` exactly when the count is positive, and
      neither favourite status nor a resume position. */
  function WatchedRow(key: string, user: JellyfinUser, w: KodiWatched): (row: UserData)
    requires w.lastPlayed.Some?
    ensures row.key == key && row.userId == user.internalId
    ensures row.played == (row.playCount > 0)
    ensures row.playCount == w.playCount && Some(row.lastPlayedDate) == w.lastPlayed
    ensures !row.isFavorite && row.playbackPositionTicks == 0
  {
    ReplacementRow(key, user.internalId, w.playCount > 0, w.playCount, w.lastPlayed.value)
  }

  /** The user-data table after the pass has handled one record. */
  function ApplyRecord(rows: UserDataTable, items: ItemsTable, user: JellyfinUser,
                       w: KodiWatched): (r: UserDataTable)
    requires Classify(items, w).Applied? ==> w.lastPlayed.Some?
    ensures !Classify(items, w).Applied? ==> r == rows
    ensures Classify(items, w).Applied? ==>
              var key := Classify(items, w).key;
              r.Keys == rows.Keys + {key}
              && r[key] == WatchedRow(key, user, w)
              && forall k :: k in rows && k != key ==> r[k] == rows[k]
  {
    match Classify(items, w)
    case Applied(key) =>
      Upserted(rows, key, user.internalId, w.playCount > 0, w.playCount, w.lastPlayed.value)
    case _ => rows
  }

  /** The user-data table after the pass has handled `records` in order. The
      pass only adds or replaces rows: it never deletes one. */
  function ApplyAll(rows: UserDataTable, items: ItemsTable, user: JellyfinUser,
                    records: seq<KodiWatched>): (r: UserDataTable)
    requires Ready(items, records)
    ensures rows.Keys <= r.Keys
  {
    if records == [] then rows
    else
      var n := |records| - 1;
      assert Ready(items, records[..n]);
      ApplyRecord(ApplyAll(rows, items, user, records[..n]), items, user, records[n])
  }

  /** The records the pass defers to the warning, in input order; never more
      than the input (which records exactly: `Properties.UnmatchedMembership`). */
  function UnmatchedRecords(items: ItemsTable, records: seq<KodiWatched>): (r: seq<KodiWatched>)
    ensures |r| <= |records|
  {
    if records == [] then []
    else
      var n := |records| - 1;
      UnmatchedRecords(items, records[..n])
        + (if Classify(items, records[n]) == Unmatched then [records[n]] else [])
  }

  /** The paths looked up in the items table, in order: those of the records
      that were not skipped. */
  function LookedUp(records: seq<KodiWatched>): (r: seq<string>)
    ensures |r| <= |records|
  {
    if records == [] then []
    else
      var n := |records| - 1;
      LookedUp(records[..n]) + (if IsSkipped(records[n]) then [] else [records[n].Path()])
  }

  const WarningHeader: string :=
    "I ran into some files that are marked as watched in Kodi, but don't exist over in Jellyfin"

  /** One line per missing record: a newline followed by its path. The text
      starts a new line unless it is empty, and holds at least one character
      per record. */
  function PathLines(missing: seq<KodiWatched>): (r: string)
    ensures |r| >= |missing|
    ensures missing != [] ==> r != [] && r[0] == '\n'
  {
    if missing == [] then ""
    else
      var n := |missing| - 1;
      PathLines(missing[..n]) + "\n" + missing[n].Path()
  }

  /** The warning the pass logs, if any: one exactly when some record was
      deferred, and then it opens with the fixed header. */
  function WarningText(missing: seq<KodiWatched>): (warning: Option<string>)
    ensures warning.Some? <==> missing != []
    ensures warning.Some? ==> StartsWith(warning.value, WarningHeader)
  {
    if |missing| > 0 then Some(WarningHeader + PathLines(missing)) else None
  }

  /** The loop at kodi2jellyfin.py:187-192 that builds the warning with `+=`. */
  method MissingWarning(missing: seq<KodiWatched>) returns (warning: Option<string>)
    ensures warning == WarningText(missing)
  {
    if |missing| > 0 {
      var text := WarningHeader;
      var i := 0;
      while i < |missing|
        invariant 0 <= i <= |missing|
        invariant text == WarningHeader + PathLines(missing[..i])
      {
        assert missing[..i + 1][..i] == missing[..i];
        text := text + "\n" + missing[i].Path();
        i := i + 1;
      }
      assert missing[..|missing|] == missing;
      warning := Some(text);
    } else {
      warning := None;
    }
  }

  /** The reconciliation pass over already-decoded records for an already
      resolved user (kodi2jellyfin.py:158-192). Returns the warning it logs. */
  method Kodi2Jellyfin(data: JellyfinData, user: JellyfinUser, records: seq<KodiWatched>)
    returns (warning: Option<string>)
    requires Ready(data.library, records)
    modifies data`userDatas, data`queries
    ensures data.library == old(data.library)
    ensures data.userDatas == ApplyAll(old(data.userDatas), data.library, user, records)
    ensures data.queries == old(data.queries) + LookedUp(records)
    ensures warning == WarningText(UnmatchedRecords(data.library, records))
  {
    var missing: seq<KodiWatched> := [];
    var i := 0;
    while i < |records|
      invariant 0 <= i <= |records|
      invariant Ready(data.library, records[..i])
      invariant data.userDatas == ApplyAll(old(data.userDatas), data.library, user, records[..i])
      invariant data.queries == old(data.queries) + LookedUp(records[..i])
      invariant missing == UnmatchedRecords(data.library, records[..i])
    {
      var w := records[i];
      assert records[..i + 1][..i] == records[..i];
      assert Ready(data.library, records[..i + 1]);
      if !IsSkipped(w) {
        var key := data.GetUserDataKeyForPath(w.Path());
        if key.None? {
          missing := missing + [w];
        } else {
          data.UpsertUserData(key.value, user.internalId, w.playCount > 0, w.playCount,
                              w.lastPlayed.value);
        }
      }
      i := i + 1;
    }
    assert records[..|records|] == records;
    warning := MissingWarning(missing);
  }
}
