/**
 The two Jellyfin tables the reconciliation touches, held as maps
 (kodi2jellyfin.py:45-136): `TypedBaseItems`, which maps a library path to
 the item's user-data key, and `UserDatas`, the per-item watch state,
 keyed here by item key alone.
 */
module Jellyfin {
  import opened Wrappers

  datatype JellyfinUser = JellyfinUser(username: string, internalId: string)

  /** A row of `UserDatas`. Timestamps are opaque instants (`int`). */
  datatype UserData = UserData(
    key: string,
    userId: string,
    played: bool,
    playCount: int,
    lastPlayedDate: int,
    isFavorite: bool,
    playbackPositionTicks: int)

  /** `TypedBaseItems`: path to `UserDataKey`; the column may be NULL (`None`). */
  type ItemsTable = map<string, Option<string>>

  /** `UserDatas`, keyed by the item's user-data key. */
  type UserDataTable = map<string, UserData>

  /** The key the items table gives for `path`, or `None` when there is no
      row for it or its `UserDataKey` is NULL. */
  function KeyForPath(items: ItemsTable, path: string): (r: Option<string>)
    ensures r.Some? <==> path in items && items[path].Some?
    ensures r.Some? ==> r == items[path]
  {
    if path in items then items[path] else None
  }

  /** The row `REPLACE INTO UserDatas` writes: whatever was there before,
      favourite status and resume position are reset. */
  function ReplacementRow(key: string, userId: string, played: bool, playCount: int,
                          lastPlayedDate: int): (row: UserData)
    ensures row.key == key && row.userId == userId && row.played == played
    ensures row.playCount == playCount && row.lastPlayedDate == lastPlayedDate
    ensures !row.isFavorite && row.playbackPositionTicks == 0
  {
    UserData(key, userId, played, playCount, lastPlayedDate, false, 0)
  }

  /** The table after a full-row replace at `key`. */
  function Upserted(rows: UserDataTable, key: string, userId: string, played: bool,
                    playCount: int, lastPlayedDate: int): (r: UserDataTable)
    ensures r.Keys == rows.Keys + {key}
    ensures r[key] == ReplacementRow(key, userId, played, playCount, lastPlayedDate)
    ensures forall k :: k in rows && k != key ==> r[k] == rows[k]
  {
    rows[key := ReplacementRow(key, userId, played, playCount, lastPlayedDate)]
  }

  /** Replacing the same row twice leaves the table as replacing it once. */
  lemma UpsertIdempotent(rows: UserDataTable, key: string, userId: string, played: bool,
                         playCount: int, lastPlayedDate: int)
    ensures var once := Upserted(rows, key, userId, played, playCount, lastPlayedDate);
            Upserted(once, key, userId, played, playCount, lastPlayedDate) == once
  {
  }

  /** Two replaces at one key: only the second one is visible afterwards. */
  lemma UpsertLastWins(rows: UserDataTable, key: string,
                       userId1: string, played1: bool, playCount1: int, lastPlayedDate1: int,
                       userId2: string, played2: bool, playCount2: int, lastPlayedDate2: int)
    ensures Upserted(Upserted(rows, key, userId1, played1, playCount1, lastPlayedDate1),
                     key, userId2, played2, playCount2, lastPlayedDate2)
         == Upserted(rows, key, userId2, played2, playCount2, lastPlayedDate2)
  {
  }

  /** The written row does not depend on what the table held before. */
  lemma UpsertForgetsPrior(rows1: UserDataTable, rows2: UserDataTable, key: string, userId: string,
                           played: bool, playCount: int, lastPlayedDate: int)
    ensures Upserted(rows1, key, userId, played, playCount, lastPlayedDate)[key]
         == Upserted(rows2, key, userId, played, playCount, lastPlayedDate)[key]
  {
  }

  /** Jellyfin's persisted state, opened for one run. `library` is
      `TypedBaseItems`, `userDatas` is `UserDatas`; `queries` records, in
      order, every path that was looked up in the items table. */
  class JellyfinData {
    var library: ItemsTable
    var userDatas: UserDataTable
    ghost var queries: seq<string>

    constructor (library: ItemsTable, userDatas: UserDataTable)
      ensures this.library == library && this.userDatas == userDatas && queries == []
    {
      this.library := library;
      this.userDatas := userDatas;
      queries := [];
    }

    /** `SELECT UserDataKey FROM TypedBaseItems WHERE Path = :path`. */
    method GetUserDataKeyForPath(path: string) returns (key: Option<string>)
      modifies this`queries
      ensures key == KeyForPath(library, path)
      ensures queries == old(queries) + [path]
    {
      queries := queries + [path];
      if path in library {
        key := library[path];
      } else {
        key := None;
      }
    }

    /** `REPLACE INTO UserDatas ...` with `isFavorite` false and
        `playbackPositionTicks` 0; the items table is not touched. */
    method UpsertUserData(key: string, userId: string, played: bool, playCount: int,
                          lastPlayedDate: int)
      modifies this`userDatas
      ensures userDatas == Upserted(old(userDatas), key, userId, played, playCount, lastPlayedDate)
    {
      userDatas := userDatas[key := ReplacementRow(key, userId, played, playCount, lastPlayedDate)];
    }

    /** `SELECT * FROM UserDatas WHERE key = :key`. */
    method GetUserData(key: string) returns (row: Option<UserData>)
      ensures row.Some? <==> key in userDatas
      ensures row.Some? ==> row.value == userDatas[key]
    {
      if key in userDatas {
        row := Some(userDatas[key]);
      } else {
        row := None;
      }
    }
  }
}
