/**
 * The two database views that list the songs whose content must stay cached:
 * `PlaylistDownloadInfo` (songs of playlists marked for download, with the
 * largest known content length) and `FavouritesDownloadInfo` (meant to list the
 * liked songs). Tables are sequences of rows; a view is a function of them.
 * SQL leaves the order of result rows open; the model fixes one (first
 * appearance for GROUP BY, nested-loop order for the joins), and the lemmas
 * state what holds whatever the order.
 */
module DownloadInfo {

  datatype Option<T> = None | Some(value: T)

  /** A row of SongPlaylistMap: the song `songId` is in playlist `playlistId`. */
  datatype SongPlaylistMap = SongPlaylistMap(songId: string, playlistId: int)

  /** A row of Playlist; `download` is the integer stored for the "download this playlist" flag. */
  datatype Playlist = Playlist(id: int, download: int)

  /** A row of Format: the stream format recorded for a song, with its nullable content length. */
  datatype Format = Format(songId: string, contentLength: Option<int>)

  /** A row of Song; `likedAt` is NULL for a song that is not liked. */
  datatype Song = Song(id: string, likedAt: Option<int>)

  /** A row of either view: a song and its content length, if known. */
  datatype SongDownloadInfo = SongDownloadInfo(songId: string, contentLength: Option<int>)

  /** A row of `SongPlaylistMap LEFT JOIN Format JOIN Playlist`, reduced to the columns the view reads. */
  datatype JoinedRow = JoinedRow(songId: string, contentLength: Option<int>, download: int)

  // ---------------------------------------------------------------------------
  // The MAX aggregate
  // ---------------------------------------------------------------------------

  /** MAX of two values; NULL is ignored. */
  function SqlMax(a: Option<int>, b: Option<int>): Option<int>
  {
    match (a, b)
    case (None, _) => b
    case (_, None) => a
    case (Some(x), Some(y)) => Some(if x >= y then x else y)
  }

  /** MAX over a column: the largest non-NULL value, or NULL if there is none. */
  function MaxOf(column: seq<Option<int>>): (r: Option<int>)
    ensures r.None? <==> forall x :: x in column ==> x.None?
    ensures r.Some? ==> r in column
    ensures r.Some? ==> forall x :: x in column && x.Some? ==> x.value <= r.value
  {
    if column == [] then None
    else
      var init := column[..|column| - 1];
      var r := SqlMax(MaxOf(init), column[|column| - 1]);
      assert column == init + [column[|column| - 1]];
      r
  }

  /** MAX sees only which values occur, not how often or in what order. */
  lemma {:induction false} MaxOfDependsOnValues(a: seq<Option<int>>, b: seq<Option<int>>)
    requires forall x :: x in a <==> x in b
    ensures MaxOf(a) == MaxOf(b)
  {
    var ra, rb := MaxOf(a), MaxOf(b);
    if ra.Some? {
      assert ra in b;
      assert rb.Some? && ra.value <= rb.value;
      assert rb in a;
    }
  }

  // ---------------------------------------------------------------------------
  // PlaylistDownloadInfo
  // ---------------------------------------------------------------------------

  /** The content lengths of a song's Format rows. */
  function ContentLengths(formats: seq<Format>, songId: string): (r: seq<Option<int>>)
    ensures forall x :: x in r <==> exists f :: f in formats && f.songId == songId && f.contentLength == x
  {
    if formats == [] then []
    else
      var rest := ContentLengths(formats[1..], songId);
      assert forall f :: f in formats <==> f == formats[0] || f in formats[1..];
      if formats[0].songId == songId then [formats[0].contentLength] + rest else rest
  }

  /** The largest non-NULL content length among a song's Format rows, or NULL. */
  function MaxContentLength(formats: seq<Format>, songId: string): Option<int>
  {
    MaxOf(ContentLengths(formats, songId))
  }

  /** `LEFT JOIN Format on SongPlaylistMap.songId = Format.songId`: a NULL row when nothing matches. */
  function LeftJoinLengths(formats: seq<Format>, songId: string): seq<Option<int>>
  {
    var matched := ContentLengths(formats, songId);
    if matched == [] then [None] else matched
  }

  /** `JOIN Playlist on playlistId = id`: the playlists a map row joins with. */
  function PlaylistsWithId(playlists: seq<Playlist>, id: int): (r: seq<Playlist>)
    ensures forall p :: p in r <==> p in playlists && p.id == id
  {
    if playlists == [] then []
    else
      var rest := PlaylistsWithId(playlists[1..], id);
      assert forall p :: p in playlists <==> p == playlists[0] || p in playlists[1..];
      if playlists[0].id == id then [playlists[0]] + rest else rest
  }

  /** One content length of the song against every joined playlist. */
  function Spread(songId: string, length: Option<int>, playlists: seq<Playlist>): (r: seq<JoinedRow>)
    ensures forall row :: row in r <==>
      row.songId == songId && row.contentLength == length
      && exists p :: p in playlists && p.download == row.download
  {
    if playlists == [] then []
    else
      var rest := Spread(songId, length, playlists[1..]);
      assert forall p :: p in playlists <==> p == playlists[0] || p in playlists[1..];
      [JoinedRow(songId, length, playlists[0].download)] + rest
  }

  /** The joined rows of one map row: each joined format length against each joined playlist. */
  function Pair(songId: string, lengths: seq<Option<int>>, playlists: seq<Playlist>): (r: seq<JoinedRow>)
    ensures forall row :: row in r <==>
      row.songId == songId && row.contentLength in lengths
      && exists p :: p in playlists && p.download == row.download
  {
    if lengths == [] then []
    else
      var rest := Pair(songId, lengths[1..], playlists);
      assert forall x :: x in lengths <==> x == lengths[0] || x in lengths[1..];
      Spread(songId, lengths[0], playlists) + rest
  }

  /** `FROM SongPlaylistMap LEFT JOIN Format ... JOIN Playlist ...`. */
  function JoinRows(maps: seq<SongPlaylistMap>, formats: seq<Format>, playlists: seq<Playlist>): seq<JoinedRow>
  {
    if maps == [] then []
    else
      var m := maps[0];
      Pair(m.songId, LeftJoinLengths(formats, m.songId), PlaylistsWithId(playlists, m.playlistId))
      + JoinRows(maps[1..], formats, playlists)
  }

  /** `WHERE download = 1`. */
  function WhereDownload(rows: seq<JoinedRow>): (r: seq<JoinedRow>)
    ensures forall row :: row in r <==> row in rows && row.download == 1
  {
    if rows == [] then []
    else
      var rest := WhereDownload(rows[1..]);
      assert forall x :: x in rows <==> x == rows[0] || x in rows[1..];
      if rows[0].download == 1 then [rows[0]] + rest else rest
  }

  /** The distinct song ids of the rows, in order of first appearance. */
  function GroupKeys(rows: seq<JoinedRow>): (r: seq<string>)
    ensures forall i, j :: 0 <= i < j < |r| ==> r[i] != r[j]
    ensures forall s :: s in r <==> exists row :: row in rows && row.songId == s
  {
    if rows == [] then []
    else
      var init := rows[..|rows| - 1];
      var last := rows[|rows| - 1];
      var keys := GroupKeys(init);
      assert forall x :: x in rows <==> x in init || x == last by {
        assert rows == init + [last];
      }
      if last.songId in keys then keys else keys + [last.songId]
  }

  /** The content lengths of the rows of one group. */
  function GroupColumn(rows: seq<JoinedRow>, songId: string): (r: seq<Option<int>>)
    ensures forall x :: x in r <==> exists row :: row in rows && row.songId == songId && row.contentLength == x
  {
    if rows == [] then []
    else
      var rest := GroupColumn(rows[1..], songId);
      assert forall x :: x in rows <==> x == rows[0] || x in rows[1..];
      if rows[0].songId == songId then [rows[0].contentLength] + rest else rest
  }

  /** `GROUP BY SongPlaylistMap.songId` selecting the song id and `MAX(contentLength)`. */
  function GroupBySong(rows: seq<JoinedRow>): seq<SongDownloadInfo>
  {
    var keys := GroupKeys(rows);
    seq(|keys|, i requires 0 <= i < |keys| => SongDownloadInfo(keys[i], MaxOf(GroupColumn(rows, keys[i]))))
  }

  /** The `PlaylistDownloadInfo` view; it has at most one row per song. */
  function PlaylistDownloadInfo(maps: seq<SongPlaylistMap>, formats: seq<Format>, playlists: seq<Playlist>): (r: seq<SongDownloadInfo>)
    ensures forall i, j :: 0 <= i < j < |r| ==> r[i].songId != r[j].songId
  {
    GroupBySong(WhereDownload(JoinRows(maps, formats, playlists)))
  }

  /** Some SongPlaylistMap row puts the song in a playlist whose `download` is 1. */
  ghost predicate InDownloadedPlaylist(maps: seq<SongPlaylistMap>, playlists: seq<Playlist>, songId: string)
  {
    exists m :: m in maps && m.songId == songId && exists p :: p in playlists && p.id == m.playlistId && p.download == 1
  }

  /** The rows of the join, by membership. */
  lemma {:induction false} JoinRowsMembers(maps: seq<SongPlaylistMap>, formats: seq<Format>, playlists: seq<Playlist>, row: JoinedRow)
    ensures row in JoinRows(maps, formats, playlists) <==>
      row.contentLength in LeftJoinLengths(formats, row.songId)
      && exists m :: m in maps && m.songId == row.songId
           && exists p :: p in playlists && p.id == m.playlistId && p.download == row.download
  {
    if maps != [] {
      JoinRowsMembers(maps[1..], formats, playlists, row);
      assert forall m :: m in maps <==> m == maps[0] || m in maps[1..];
    }
  }

  /** The rows of one group after the WHERE filter carry exactly the song's left-joined lengths. */
  lemma GroupColumnOfView(maps: seq<SongPlaylistMap>, formats: seq<Format>, playlists: seq<Playlist>, songId: string)
    requires InDownloadedPlaylist(maps, playlists, songId)
    ensures var rows := WhereDownload(JoinRows(maps, formats, playlists));
      forall x :: x in GroupColumn(rows, songId) <==> x in LeftJoinLengths(formats, songId)
  {
    var rows := WhereDownload(JoinRows(maps, formats, playlists));
    forall x ensures x in GroupColumn(rows, songId) <==> x in LeftJoinLengths(formats, songId) {
      JoinRowsMembers(maps, formats, playlists, JoinedRow(songId, x, 1));
    }
  }

  /** The rows of `GROUP BY`: one per key, in key order, with that group's maximum. */
  lemma GroupBySongRows(rows: seq<JoinedRow>, i: int)
    requires 0 <= i < |GroupKeys(rows)|
    ensures |GroupBySong(rows)| == |GroupKeys(rows)|
    ensures GroupBySong(rows)[i] == SongDownloadInfo(GroupKeys(rows)[i], MaxOf(GroupColumn(rows, GroupKeys(rows)[i])))
  {
  }

  /** A song in a playlist marked for download is listed by `PlaylistDownloadInfo`. */
  lemma PlaylistViewListsDownloaded(maps: seq<SongPlaylistMap>, formats: seq<Format>, playlists: seq<Playlist>, songId: string)
    requires InDownloadedPlaylist(maps, playlists, songId)
    ensures exists i :: 0 <= i < |PlaylistDownloadInfo(maps, formats, playlists)|
                        && PlaylistDownloadInfo(maps, formats, playlists)[i].songId == songId
  {
    var rows := WhereDownload(JoinRows(maps, formats, playlists));
    var keys := GroupKeys(rows);
    var x := LeftJoinLengths(formats, songId)[0];
    JoinRowsMembers(maps, formats, playlists, JoinedRow(songId, x, 1));
    assert JoinedRow(songId, x, 1) in rows;
    assert songId in keys;
    var i :| 0 <= i < |keys| && keys[i] == songId;
    GroupBySongRows(rows, i);
    assert PlaylistDownloadInfo(maps, formats, playlists)[i].songId == songId;
  }

  /** Every song `PlaylistDownloadInfo` lists is in a playlist marked for download. */
  lemma PlaylistViewListsOnlyDownloaded(maps: seq<SongPlaylistMap>, formats: seq<Format>, playlists: seq<Playlist>, i: int)
    requires 0 <= i < |PlaylistDownloadInfo(maps, formats, playlists)|
    ensures InDownloadedPlaylist(maps, playlists, PlaylistDownloadInfo(maps, formats, playlists)[i].songId)
  {
    var rows := WhereDownload(JoinRows(maps, formats, playlists));
    var keys := GroupKeys(rows);
    GroupBySongRows(rows, i);
    assert keys[i] in keys;
    var row :| row in rows && row.songId == keys[i];
    JoinRowsMembers(maps, formats, playlists, row);
  }

  /**
   * A listed song's content length is the largest non-NULL content length among
   * all of its Format rows, or NULL if it has none; how many playlists hold the
   * song, downloadable or not, does not matter.
   */
  lemma PlaylistViewContentLength(maps: seq<SongPlaylistMap>, formats: seq<Format>, playlists: seq<Playlist>, i: nat)
    requires i < |PlaylistDownloadInfo(maps, formats, playlists)|
    ensures var row := PlaylistDownloadInfo(maps, formats, playlists)[i];
      row.contentLength == MaxContentLength(formats, row.songId)
  {
    var v := PlaylistDownloadInfo(maps, formats, playlists);
    var songId := v[i].songId;
    PlaylistViewListsOnlyDownloaded(maps, formats, playlists, i);
    GroupColumnOfView(maps, formats, playlists, songId);
    var rows := WhereDownload(JoinRows(maps, formats, playlists));
    GroupBySongRows(rows, i);
    MaxOfDependsOnValues(GroupColumn(rows, songId), LeftJoinLengths(formats, songId));
  }

  /** What the content length of a listed song means, in terms of the Format table alone. */
  lemma MaxContentLengthMeaning(formats: seq<Format>, songId: string)
    ensures MaxContentLength(formats, songId).None? <==>
      forall f :: f in formats && f.songId == songId ==> f.contentLength.None?
    ensures MaxContentLength(formats, songId).Some? ==>
      (exists f :: f in formats && f.songId == songId && f.contentLength == MaxContentLength(formats, songId))
      && forall f :: f in formats && f.songId == songId && f.contentLength.Some? ==>
           f.contentLength.value <= MaxContentLength(formats, songId).value
  {
    var r := MaxContentLength(formats, songId);
    forall f | f in formats && f.songId == songId ensures f.contentLength in ContentLengths(formats, songId) {
    }
  }

  /** When every map row is about one song in a playlist marked for download, the view is that one song. */
  lemma PlaylistViewOfOneSong(maps: seq<SongPlaylistMap>, formats: seq<Format>, playlists: seq<Playlist>, songId: string)
    requires forall m :: m in maps ==> m.songId == songId
    requires InDownloadedPlaylist(maps, playlists, songId)
    ensures |PlaylistDownloadInfo(maps, formats, playlists)| == 1
    ensures PlaylistDownloadInfo(maps, formats, playlists)[0].songId == songId
  {
    var rows := WhereDownload(JoinRows(maps, formats, playlists));
    var keys := GroupKeys(rows);
    PlaylistViewListsDownloaded(maps, formats, playlists, songId);
    assert |keys| >= 2 ==> keys[0] != keys[1];
    forall j | 0 <= j < |keys| ensures keys[j] == songId {
      assert keys[j] in keys;
      var row :| row in rows && row.songId == keys[j];
      JoinRowsMembers(maps, formats, playlists, row);
    }
    assert |keys| < 2;
    GroupBySongRows(rows, 0);
  }

  /**
   * When every map row is about one song in a playlist marked for download,
   * the view is exactly one row: that song with its maximum Format length.
   */
  lemma OneSongView(maps: seq<SongPlaylistMap>, formats: seq<Format>, playlists: seq<Playlist>, songId: string)
    requires forall m :: m in maps ==> m.songId == songId
    requires InDownloadedPlaylist(maps, playlists, songId)
    ensures PlaylistDownloadInfo(maps, formats, playlists) == [SongDownloadInfo(songId, MaxContentLength(formats, songId))]
  {
    PlaylistViewOfOneSong(maps, formats, playlists, songId);
    PlaylistViewContentLength(maps, formats, playlists, 0);
  }

  /**
   * A song in both a playlist marked for download and one that is not is
   * listed once, with the maximum of its Format rows' lengths.
   */
  lemma MixedPlaylistsListOnce(maps: seq<SongPlaylistMap>, formats: seq<Format>, playlists: seq<Playlist>)
    requires maps == [SongPlaylistMap("a", 1), SongPlaylistMap("a", 2), SongPlaylistMap("a", 1)]
    requires formats == [Format("a", Some(10)), Format("a", None), Format("a", Some(30))]
    requires playlists == [Playlist(1, 1), Playlist(2, 0)]
    ensures PlaylistDownloadInfo(maps, formats, playlists) == [SongDownloadInfo("a", Some(30))]
  {
    assert InDownloadedPlaylist(maps, playlists, "a") by {
      assert maps[0] in maps && playlists[0] in playlists;
    }
    OneSongView(maps, formats, playlists, "a");
    MaxContentLengthOfMixed(formats);
  }

  lemma MaxContentLengthOfMixed(formats: seq<Format>)
    requires formats == [Format("a", Some(10)), Format("a", None), Format("a", Some(30))]
    ensures MaxContentLength(formats, "a") == Some(30)
  {
    MaxContentLengthMeaning(formats, "a");
    assert formats[2] in formats;
    var r := MaxContentLength(formats, "a");
    var f :| f in formats && f.songId == "a" && f.contentLength == r;
    assert f == formats[0] || f == formats[1] || f == formats[2];
  }

  // ---------------------------------------------------------------------------
  // FavouritesDownloadInfo
  // ---------------------------------------------------------------------------

  /** The view's columns of a Format row: `songId, contentLength`. */
  function Info(f: Format): SongDownloadInfo
  {
    SongDownloadInfo(f.songId, f.contentLength)
  }

  /** The liked songs (`likedAt IS NOT NULL`). */
  function Liked(songs: seq<Song>): (r: seq<Song>)
    ensures forall s :: s in r <==> s in songs && s.likedAt.Some?
  {
    if songs == [] then []
    else
      var rest := Liked(songs[1..]);
      assert forall s :: s in songs <==> s == songs[0] || s in songs[1..];
      if songs[0].likedAt.Some? then [songs[0]] + rest else rest
  }

  /** Every Format row, as view rows, in table order. */
  function Infos(formats: seq<Format>): (r: seq<SongDownloadInfo>)
    ensures |r| == |formats|
    ensures forall x :: x in r <==> exists f :: f in formats && x == Info(f)
  {
    if formats == [] then []
    else
      var rest := Infos(formats[1..]);
      assert forall f :: f in formats <==> f == formats[0] || f in formats[1..];
      [Info(formats[0])] + rest
  }

  /**
   * The favourites view as written: it selects the Format columns of a join
   * of Song with Format that has no join condition, so every Format row is
   * paired with every Song row, and the `likedAt IS NOT NULL` filter keeps the
   * pairs whose song is liked.
   */
  function FavouritesDownloadInfo(songs: seq<Song>, formats: seq<Format>): seq<SongDownloadInfo>
  {
    if songs == [] then []
    else (if songs[0].likedAt.Some? then Infos(formats) else []) + FavouritesDownloadInfo(songs[1..], formats)
  }

  lemma MulSucc(a: nat, b: nat)
    ensures a * (b + 1) == a + a * b
  {
  }

  /** As written, the view has one row per Format row per liked song. */
  lemma {:induction false} FavouritesSize(songs: seq<Song>, formats: seq<Format>)
    ensures |FavouritesDownloadInfo(songs, formats)| == |formats| * |Liked(songs)|
  {
    if songs != [] {
      FavouritesSize(songs[1..], formats);
      if songs[0].likedAt.Some? {
        assert Liked(songs) == [songs[0]] + Liked(songs[1..]);
        MulSucc(|formats|, |Liked(songs[1..])|);
      } else {
        assert Liked(songs) == Liked(songs[1..]);
      }
    }
  }

  /**
   * As written, the view lists every Format row, whatever song it belongs to,
   * as soon as one song is liked, and nothing when none is.
   */
  lemma {:induction false} FavouritesMembers(songs: seq<Song>, formats: seq<Format>)
    ensures forall x :: x in FavouritesDownloadInfo(songs, formats) <==>
      Liked(songs) != [] && exists f :: f in formats && x == Info(f)
  {
    if songs != [] {
      FavouritesMembers(songs[1..], formats);
      if songs[0].likedAt.Some? {
        assert songs[0] in Liked(songs);
      } else {
        assert Liked(songs) == Liked(songs[1..]);
      }
    }
  }

  /**
   * The view as evidently intended: `JOIN Format ON Song.id = Format.songId`,
   * the Format rows of the liked songs, once per liked song row.
   */
  function FavouritesDownloadInfoJoined(songs: seq<Song>, formats: seq<Format>): seq<SongDownloadInfo>
  {
    if songs == [] then []
    else
      (if songs[0].likedAt.Some? then FormatsOf(formats, songs[0].id) else [])
      + FavouritesDownloadInfoJoined(songs[1..], formats)
  }

  /** The Format rows of one song, as view rows. */
  function FormatsOf(formats: seq<Format>, songId: string): (r: seq<SongDownloadInfo>)
    ensures forall x :: x in r <==> exists f :: f in formats && f.songId == songId && x == Info(f)
  {
    if formats == [] then []
    else
      var rest := FormatsOf(formats[1..], songId);
      assert forall f :: f in formats <==> f == formats[0] || f in formats[1..];
      if formats[0].songId == songId then [Info(formats[0])] + rest else rest
  }

  /** The intended view lists exactly the Format rows that belong to a liked song. */
  lemma {:induction false} FavouritesJoinedMembers(songs: seq<Song>, formats: seq<Format>)
    ensures forall x :: x in FavouritesDownloadInfoJoined(songs, formats) <==>
      exists f :: f in formats && x == Info(f) && exists s :: s in Liked(songs) && s.id == f.songId
  {
    if songs != [] {
      FavouritesJoinedMembers(songs[1..], formats);
      assert forall s :: s in Liked(songs) <==> (s == songs[0] && s.likedAt.Some?) || s in Liked(songs[1..]);
    }
  }

  /**
   * The two differ: with one liked song "a" and one Format row for the song "b",
   * which is not liked, the view as written lists "b"; the intended view is empty.
   */
  lemma FavouritesListsUnlikedSongs()
    ensures FavouritesDownloadInfo([Song("a", Some(1)), Song("b", None)], [Format("b", Some(5))])
            == [SongDownloadInfo("b", Some(5))]
    ensures FavouritesDownloadInfoJoined([Song("a", Some(1)), Song("b", None)], [Format("b", Some(5))]) == []
  {
    var songs := [Song("a", Some(1)), Song("b", None)];
    var formats := [Format("b", Some(5))];
    assert songs[1..] == [Song("b", None)];
    assert songs[1..][1..] == [];
    assert FormatsOf(formats, "a") == [] by {
      assert formats[1..] == [];
      assert |"b"| == |"a"| && "b"[0] != "a"[0];
    }
  }
}
