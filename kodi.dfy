/**
 Watch records exported from Kodi, one per row of the dump, after decoding
 (kodi2jellyfin.py:22-31), and the rule that decides which records the
 reconciliation pass ignores outright (kodi2jellyfin.py:164-167).
 */
module Kodi {
  import opened Wrappers

  /** A decoded row of the Kodi dump. Timestamps are opaque instants (`int`). */
  datatype KodiWatched = KodiWatched(
    folder: string,
    fileName: string,
    lastPlayed: Option<int>,
    playCount: int)
  {
    /** The record's path: the folder and the file name glued together as
        they are, with no separator added or normalised. */
    function Path(): (p: string)
      ensures |p| == |folder| + |fileName|
      ensures p[..|folder|] == folder && p[|folder|..] == fileName
    {
      folder + fileName
    }
  }

  const PluginScheme: string := "plugin://"
  const RootPath: string := "/"

  /** Python's `str.startswith`. */
  predicate StartsWith(s: string, prefix: string)
  {
    |prefix| <= |s| && s[..|prefix|] == prefix
  }

  /** `s` starts with `prefix` exactly when it is `prefix` followed by
      something. */
  lemma StartsWithIff(s: string, prefix: string)
    ensures StartsWith(s, prefix) <==> exists rest :: s == prefix + rest
  {
    if StartsWith(s, prefix) {
      assert s == prefix + s[|prefix|..];
    }
  }

  /** The root sentinel is reached by exactly two splittings of "/" into a
      folder and a file name. */
  lemma RootPathSplits(w: KodiWatched)
    ensures w.Path() == RootPath <==>
              (w.folder == "/" && w.fileName == "") || (w.folder == "" && w.fileName == "/")
  {
  }

  /** A record the pass ignores: its path is the root sentinel, or its folder
      belongs to a Kodi add-on. In terms of the record's own fields: folder
      and file name are "/" and "", or "" and "/", or the folder starts with
      "plugin://". */
  predicate IsSkipped(w: KodiWatched)
    ensures IsSkipped(w) <==>
              (w.folder == "/" && w.fileName == "") || (w.folder == "" && w.fileName == "/")
              || StartsWith(w.folder, PluginScheme)
  {
    RootPathSplits(w);
    w.Path() == RootPath || StartsWith(w.folder, PluginScheme)
  }

  /** Whatever its file name, a record from an add-on folder is skipped, and
      its path starts with the add-on scheme too. */
  lemma PluginFolderSkipped(w: KodiWatched)
    requires StartsWith(w.folder, PluginScheme)
    ensures IsSkipped(w)
    ensures StartsWith(w.Path(), PluginScheme)
  {
  }
}
