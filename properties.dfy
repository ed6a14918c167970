/**
 What the reconciliation pass promises, stated over the specification
 functions of `Reconcile`: how records compose, which rows a run writes and
 with what, which rows it leaves alone, last-record-wins, idempotence of a
 whole run, and what the warning lists.
 */
module Properties {
  import opened Wrappers
  import opened Kodi
  import opened Jellyfin
  import opened Reconcile

  /** Some record of `records` resolves to `key` and so writes its row. */
  predicate Writes(items: ItemsTable, records: seq<KodiWatched>, key: string)
  {
    exists i :: 0 <= i < |records| && Classify(items, records[i]) == Applied(key)
  }

  // ---------------------------------------------------------------- composition

  /** Handling `a` and then `b` is handling `a + b`. */
  lemma {:induction false} ApplyAllAppend(rows: UserDataTable, items: ItemsTable, user: JellyfinUser,
                                          a: seq<KodiWatched>, b: seq<KodiWatched>)
    requires Ready(items, a + b)
    ensures Ready(items, a) && Ready(items, b)
    ensures ApplyAll(rows, items, user, a + b)
         == ApplyAll(ApplyAll(rows, items, user, a), items, user, b)
  {
    assert forall i | 0 <= i < |a| :: (a + b)[i] == a[i];
    assert forall i | 0 <= i < |b| :: (a + b)[|a| + i] == b[i];
    if b == [] {
      assert a + b == a;
    } else {
      var n := |b| - 1;
      assert (a + b)[..|a| + n] == a + b[..n];
      ApplyAllAppend(rows, items, user, a, b[..n]);
      assert (a + b)[|a| + n] == b[n];
    }
  }

  /** The deferred list of `a + b` is that of `a` followed by that of `b`. */
  lemma {:induction false} UnmatchedAppend(items: ItemsTable, a: seq<KodiWatched>, b: seq<KodiWatched>)
    ensures UnmatchedRecords(items, a + b) == UnmatchedRecords(items, a) + UnmatchedRecords(items, b)
  {
    if b == [] {
      assert a + b == a;
    } else {
      var n := |b| - 1;
      assert (a + b)[..|a| + n] == a + b[..n];
      UnmatchedAppend(items, a, b[..n]);
    }
  }

  /** The lookups made for `a + b` are those for `a` followed by those for `b`. */
  lemma {:induction false} LookedUpAppend(a: seq<KodiWatched>, b: seq<KodiWatched>)
    ensures LookedUp(a + b) == LookedUp(a) + LookedUp(b)
  {
    if b == [] {
      assert a + b == a;
    } else {
      var n := |b| - 1;
      assert (a + b)[..|a| + n] == a + b[..n];
      LookedUpAppend(a, b[..n]);
    }
  }

  /** The warning lines of `a + b` are those of `a` followed by those of `b`. */
  lemma {:induction false} PathLinesAppend(a: seq<KodiWatched>, b: seq<KodiWatched>)
    ensures PathLines(a + b) == PathLines(a) + PathLines(b)
  {
    if b == [] {
      assert a + b == a;
    } else {
      var n := |b| - 1;
      assert (a + b)[..|a| + n] == a + b[..n];
      PathLinesAppend(a, b[..n]);
    }
  }

  // ---------------------------------------------------------------- skip rule

  /** Inserting a record that reaches no upsert keeps the input ready. */
  lemma ReadyInsert(items: ItemsTable, a: seq<KodiWatched>, w: KodiWatched, b: seq<KodiWatched>)
    requires Classify(items, w).Applied? ==> w.lastPlayed.Some?
    requires Ready(items, a + b)
    ensures Ready(items, a + [w] + b)
  {
    var s := a + [w] + b;
    forall i | 0 <= i < |s| && Classify(items, s[i]).Applied? ensures s[i].lastPlayed.Some? {
      if i < |a| {
        assert s[i] == (a + b)[i];
      } else if i > |a| {
        assert s[i] == (a + b)[i - 1];
      }
    }
  }

  /** A record that resolves to no key, wherever it stands in the input,
      leaves the user-data table as the input without it would. */
  lemma InertRecordSplice(rows: UserDataTable, items: ItemsTable, user: JellyfinUser,
                          a: seq<KodiWatched>, w: KodiWatched, b: seq<KodiWatched>)
    requires !Classify(items, w).Applied?
    requires Ready(items, a + b)
    ensures Ready(items, a + [w] + b)
    ensures ApplyAll(rows, items, user, a + [w] + b) == ApplyAll(rows, items, user, a + b)
  {
    ReadyInsert(items, a, w, b);
    ApplyAllAppend(rows, items, user, a + [w], b);
    ApplyAllAppend(rows, items, user, a, [w]);
    ApplyAllAppend(rows, items, user, a, b);
    var before := ApplyAll(rows, items, user, a);
    assert [w][..0] == [];
    assert ApplyAll(before, items, user, [w]) == ApplyRecord(before, items, user, w) == before;
  }

  /** A record that is not deferred, wherever it stands, leaves the deferred
      list as the input without it would. */
  lemma NotDeferredSplice(items: ItemsTable, a: seq<KodiWatched>, w: KodiWatched, b: seq<KodiWatched>)
    requires Classify(items, w) != Unmatched
    ensures UnmatchedRecords(items, a + [w] + b) == UnmatchedRecords(items, a + b)
  {
    assert [w][..0] == [];
    UnmatchedAppend(items, a + [w], b);
    UnmatchedAppend(items, a, [w]);
    UnmatchedAppend(items, a, b);
  }

  /** A skipped record, wherever it stands, adds no lookup. */
  lemma SkippedNotLookedUp(a: seq<KodiWatched>, w: KodiWatched, b: seq<KodiWatched>)
    requires IsSkipped(w)
    ensures LookedUp(a + [w] + b) == LookedUp(a + b)
  {
    assert [w][..0] == [];
    LookedUpAppend(a + [w], b);
    LookedUpAppend(a, [w]);
    LookedUpAppend(a, b);
  }

  /** A skipped record, wherever it stands in the input, causes no lookup, no
      write and no entry in the deferred list. */
  lemma SkippedRecordIsInert(rows: UserDataTable, items: ItemsTable, user: JellyfinUser,
                             a: seq<KodiWatched>, w: KodiWatched, b: seq<KodiWatched>)
    requires IsSkipped(w)
    requires Ready(items, a + b)
    ensures Ready(items, a + [w] + b)
    ensures ApplyAll(rows, items, user, a + [w] + b) == ApplyAll(rows, items, user, a + b)
    ensures UnmatchedRecords(items, a + [w] + b) == UnmatchedRecords(items, a + b)
    ensures LookedUp(a + [w] + b) == LookedUp(a + b)
  {
    InertRecordSplice(rows, items, user, a, w, b);
    NotDeferredSplice(items, a, w, b);
    SkippedNotLookedUp(a, w, b);
  }

  /** A kept record whose path resolves to no key goes to the deferred list
      and leaves the user-data table as it was. */
  lemma UnmatchedRecordDeferred(rows: UserDataTable, items: ItemsTable, user: JellyfinUser,
                                a: seq<KodiWatched>, w: KodiWatched, b: seq<KodiWatched>)
    requires !IsSkipped(w) && KeyForPath(items, w.Path()).None?
    requires Ready(items, a + b)
    ensures Ready(items, a + [w] + b)
    ensures ApplyAll(rows, items, user, a + [w] + b) == ApplyAll(rows, items, user, a + b)
    ensures UnmatchedRecords(items, a + [w] + b)
         == UnmatchedRecords(items, a) + [w] + UnmatchedRecords(items, b)
  {
    InertRecordSplice(rows, items, user, a, w, b);
    assert [w][..0] == [];
    UnmatchedAppend(items, a + [w], b);
    UnmatchedAppend(items, a, [w]);
  }

  /** The deferred list holds exactly the kept records without a key. */
  lemma {:induction false} UnmatchedMembership(items: ItemsTable, records: seq<KodiWatched>, w: KodiWatched)
    ensures w in UnmatchedRecords(items, records) <==>
              w in records && !IsSkipped(w) && KeyForPath(items, w.Path()).None?
  {
    if records != [] {
      var n := |records| - 1;
      assert records == records[..n] + [records[n]];
      UnmatchedMembership(items, records[..n], w);
    }
  }

  /** `w` is kept and has path `path`, so the pass looks `path` up for it. */
  predicate LooksUp(w: KodiWatched, path: string)
  {
    !IsSkipped(w) && w.Path() == path
  }

  /** A path is looked up exactly when some record with that path is kept. */
  lemma {:induction false} LookedUpMembership(records: seq<KodiWatched>, path: string)
    ensures path in LookedUp(records) <==> exists i :: 0 <= i < |records| && LooksUp(records[i], path)
  {
    if records != [] {
      var n := |records| - 1;
      var front := records[..n];
      LookedUpMembership(front, path);
      var last := if IsSkipped(records[n]) then [] else [records[n].Path()];
      assert LookedUp(records) == LookedUp(front) + last;
      if path in LookedUp(records) {
        if path in LookedUp(front) {
          var i :| 0 <= i < |front| && LooksUp(front[i], path);
          assert records[i] == front[i];
        } else {
          assert LooksUp(records[n], path);
        }
      }
      if exists i :: 0 <= i < |records| && LooksUp(records[i], path) {
        var i :| 0 <= i < |records| && LooksUp(records[i], path);
        if i < n {
          assert front[i] == records[i];
        } else {
          assert path in last;
        }
      }
    }
  }

  // ---------------------------------------------------------------- rows written

  /** A run lays the rows it writes over the table it starts from: what it
      writes does not depend on what was there. */
  lemma {:induction false} ApplyAllOverlays(rows: UserDataTable, items: ItemsTable, user: JellyfinUser,
                                            records: seq<KodiWatched>)
    requires Ready(items, records)
    ensures ApplyAll(rows, items, user, records) == rows + ApplyAll(map[], items, user, records)
  {
    if records != [] {
      var n := |records| - 1;
      assert Ready(items, records[..n]);
      ApplyAllOverlays(rows, items, user, records[..n]);
      var before := ApplyAll(map[], items, user, records[..n]);
      match Classify(items, records[n])
      case Applied(key) =>
        var row := WatchedRow(key, user, records[n]);
        assert (rows + before)[key := row] == rows + before[key := row];
      case _ =>
    }
  }

  /** The rows a run writes are exactly those of the keys its records resolve
      to, and each one is a full replacement for the run's user: `played`
      mirrors `playCount > 0`, no favourite, no resume position. */
  lemma {:induction false} WrittenRows(items: ItemsTable, user: JellyfinUser, records: seq<KodiWatched>)
    requires Ready(items, records)
    ensures var written := ApplyAll(map[], items, user, records);
            (forall k :: k in written <==> Writes(items, records, k))
            && forall k | k in written ::
                 && written[k].key == k
                 && written[k].userId == user.internalId
                 && written[k].played == (written[k].playCount > 0)
                 && !written[k].isFavorite
                 && written[k].playbackPositionTicks == 0
  {
    if records != [] {
      var n := |records| - 1;
      assert Ready(items, records[..n]);
      WrittenRows(items, user, records[..n]);
      assert forall i | 0 <= i < n :: records[..n][i] == records[i];
      forall k
        ensures Writes(items, records, k) <==>
                  Writes(items, records[..n], k) || Classify(items, records[n]) == Applied(k)
      {
        if Writes(items, records, k) {
          var i :| 0 <= i < |records| && Classify(items, records[i]) == Applied(k);
          if i < n { assert records[..n][i] == records[i]; }
        }
      }
    }
  }

  /** Rows of keys that no record resolves to are left as they were,
      present or absent. */
  lemma UntouchedRowsKept(rows: UserDataTable, items: ItemsTable, user: JellyfinUser,
                          records: seq<KodiWatched>, key: string)
    requires Ready(items, records)
    requires !Writes(items, records, key)
    ensures var after := ApplyAll(rows, items, user, records);
            (key in after <==> key in rows) && (key in rows ==> after[key] == rows[key])
  {
    ApplyAllOverlays(rows, items, user, records);
    WrittenRows(items, user, records);
  }

  /** When several records resolve to one key, the row is the one the last of
      them writes, whatever the table held and whatever the earlier ones wrote. */
  lemma {:induction false} LastRecordWins(rows: UserDataTable, items: ItemsTable, user: JellyfinUser,
                                          records: seq<KodiWatched>, i: nat)
    requires Ready(items, records)
    requires i < |records| && Classify(items, records[i]).Applied?
    requires forall j | i < j < |records| :: Classify(items, records[j]) != Classify(items, records[i])
    ensures records[i].lastPlayed.Some?
    ensures var key := Classify(items, records[i]).key;
            var after := ApplyAll(rows, items, user, records);
            key in after && after[key] == WatchedRow(key, user, records[i])
  {
    var n := |records| - 1;
    assert Ready(items, records[..n]);
    if i < n {
      assert records[..n][i] == records[i];
      LastRecordWins(rows, items, user, records[..n], i);
    }
  }

  /** Running the whole pass a second time over the same records changes
      nothing more. */
  lemma RunIdempotent(rows: UserDataTable, items: ItemsTable, user: JellyfinUser,
                      records: seq<KodiWatched>)
    requires Ready(items, records)
    ensures var once := ApplyAll(rows, items, user, records);
            ApplyAll(once, items, user, records) == once
  {
    var once := ApplyAll(rows, items, user, records);
    var written := ApplyAll(map[], items, user, records);
    ApplyAllOverlays(rows, items, user, records);
    ApplyAllOverlays(once, items, user, records);
    assert (rows + written) + written == rows + written;
  }

  /** Handling the same matched record twice in a row leaves the table as
      handling it once. */
  lemma RecordIdempotent(rows: UserDataTable, items: ItemsTable, user: JellyfinUser, w: KodiWatched)
    requires Classify(items, w).Applied? ==> w.lastPlayed.Some?
    ensures var once := ApplyRecord(rows, items, user, w);
            ApplyRecord(once, items, user, w) == once
  {
    if Classify(items, w).Applied? {
      var key := Classify(items, w).key;
      UpsertIdempotent(rows, key, user.internalId, w.playCount > 0, w.playCount, w.lastPlayed.value);
    }
  }

  // ---------------------------------------------------------------- warning

  /** A warning is logged exactly when some record was deferred. */
  lemma WarningIffUnmatched(items: ItemsTable, records: seq<KodiWatched>)
    ensures WarningText(UnmatchedRecords(items, records)).Some? <==>
              exists w :: w in records && Classify(items, w) == Unmatched
  {
    var missing := UnmatchedRecords(items, records);
    if missing != [] {
      UnmatchedMembership(items, records, missing[0]);
    } else {
      forall w | w in records ensures Classify(items, w) != Unmatched {
        UnmatchedMembership(items, records, w);
      }
    }
  }

  /** The warning is the fixed header, then one line per deferred record in
      order: the i-th one's path appears, after a newline, right after the
      lines of those before it. */
  lemma WarningListsEntry(missing: seq<KodiWatched>, i: nat)
    requires i < |missing|
    ensures WarningText(missing)
         == Some(WarningHeader + PathLines(missing[..i]) + "\n" + missing[i].Path()
                 + PathLines(missing[i + 1..]))
  {
    var front, rest := missing[..i], missing[i + 1..];
    assert missing == front + [missing[i]] + rest;
    PathLinesAppend(front + [missing[i]], rest);
    PathLinesAppend(front, [missing[i]]);
    assert [missing[i]][..0] == [];
    assert PathLines([missing[i]]) == "\n" + missing[i].Path();
    assert PathLines(missing) == PathLines(front) + ("\n" + missing[i].Path()) + PathLines(rest);
    assert WarningText(missing) == Some(WarningHeader + PathLines(missing));
    assert WarningHeader + PathLines(missing)
        == WarningHeader + PathLines(front) + "\n" + missing[i].Path() + PathLines(rest);
  }

  // ---------------------------------------------------------------- examples

  /** A record from "/movies/" named "foo.mkv", played three times, with the
      items table mapping "/movies/foo.mkv" to "key1", writes the full row
      for "key1" and defers nothing. */
  lemma MatchedExample(rows: UserDataTable, when: int)
    ensures var w := KodiWatched("/movies/", "foo.mkv", Some(when), 3);
            var items: ItemsTable := map["/movies/foo.mkv" := Some("key1")];
            var user := JellyfinUser("someone", "u1");
            Ready(items, [w])
            && "key1" in ApplyAll(rows, items, user, [w])
            && ApplyAll(rows, items, user, [w])["key1"] == UserData("key1", "u1", true, 3, when, false, 0)
            && UnmatchedRecords(items, [w]) == []
  {
    var w := KodiWatched("/movies/", "foo.mkv", Some(when), 3);
    assert w.Path() == "/movies/foo.mkv" by {
      forall k | 0 <= k < 15 ensures w.Path()[k] == "/movies/foo.mkv"[k] {
      }
    }
    assert !StartsWith(w.folder, PluginScheme);
    var items: ItemsTable := map["/movies/foo.mkv" := Some("key1")];
    assert Classify(items, w) == Applied("key1");
    assert [w][..0] == [];
    assert ApplyAll(rows, items, JellyfinUser("someone", "u1"), [w])
        == ApplyRecord(rows, items, JellyfinUser("someone", "u1"), w);
    assert "key1" in ApplyRecord(rows, items, JellyfinUser("someone", "u1"), w);
  }

  /** A record from an add-on folder writes nothing and defers nothing. */
  lemma PluginExample(rows: UserDataTable, items: ItemsTable, user: JellyfinUser, when: int)
    ensures var w := KodiWatched("plugin://video/", "x", Some(when), 1);
            Ready(items, [w])
            && ApplyAll(rows, items, user, [w]) == rows
            && UnmatchedRecords(items, [w]) == []
            && LookedUp([w]) == []
  {
    var w := KodiWatched("plugin://video/", "x", Some(when), 1);
    assert StartsWith(w.folder, PluginScheme);
    assert [w][..0] == [];
  }
}
