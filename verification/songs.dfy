/**
 * The track records a playlist holds, the "no playlist" sentinel, the
 * row/id lookups, and the playlist statistics the model publishes.
 */
module Songs {
  import opened Word32

  /** A playlist entry; track and disc, which only the display code reads, and file, which playlisttablemodel.cpp never reads, are left out. */
  datatype Song = Song(id: I32, pos: U32, title: string, artist: string, album: string, time: U32)

  /**
   * A playlist of exactly one song whose title, artist and album are all
   * empty stands for an empty playlist.
   */
  predicate IsEmptySentinel(songs: seq<Song>): (b: bool)
    ensures b <==> (|songs| == 1 && songs[0].title == ""
                    && Distinct(songs, ArtistTag) == {""} && Distinct(songs, AlbumTag) == {""})
  {
    assert |songs| == 1 ==> songs[..0] == [];
    |songs| == 1 && songs[0].artist == "" && songs[0].album == "" && songs[0].title == ""
  }

  /** Within one playlist no two songs share an id. */
  ghost predicate UniqueIds(songs: seq<Song>)
  {
    forall i, j :: 0 <= i < j < |songs| ==> songs[i].id != songs[j].id
  }

  // ---------------------------------------------------------------------
  // Row and id lookups
  // ---------------------------------------------------------------------

  /** getIdByRow: the id at `row`, or -1 past the end of the playlist. */
  function IdAt(songs: seq<Song>, row: int): (id: int)
    requires 0 <= row
    ensures row >= |songs| ==> id == -1
    ensures row < |songs| ==> id == songs[row].id
  {
    if |songs| <= row then -1 else songs[row].id
  }

  /**
   * getPosByRow: the position at `row` seen as a qint32, or -1 past the end.
   * Positions below 2^31 come back unchanged.
   */
  function PosAt(songs: seq<Song>, row: int): (pos: I32)
    requires 0 <= row
    ensures row >= |songs| ==> pos == -1
    ensures row < |songs| && songs[row].pos < TWO_31 ==> pos == songs[row].pos
    ensures row < |songs| && songs[row].pos >= TWO_31 ==> pos < 0
  {
    if |songs| <= row then -1 else ToI32(songs[row].pos)
  }

  /**
   * Reference definition of songIdToRow: the first row holding `id`, or -1
   * when no song has it.
   */
  function RowOf(songs: seq<Song>, id: int): (row: int)
    ensures -1 <= row < |songs|
    ensures row == -1 <==> forall i :: 0 <= i < |songs| ==> songs[i].id != id
    ensures row >= 0 ==> songs[row].id == id
    ensures forall i :: 0 <= i < row ==> songs[i].id != id
    decreases |songs|
  {
    if songs == [] then -1
    else if songs[0].id == id then 0
    else
      var r := RowOf(songs[1..], id);
      if r == -1 then -1 else r + 1
  }

  /** With unique ids, a row and the id it holds determine each other. */
  lemma IdRowRoundTrip(songs: seq<Song>, row: int, id: int)
    requires UniqueIds(songs)
    requires 0 <= row < |songs|
    ensures IdAt(songs, row) == id <==> RowOf(songs, id) == row
  {
    if IdAt(songs, row) == id {
      var r := RowOf(songs, id);
      assert r != -1 by { assert songs[row].id == id; }
    }
  }

  /**
   * Rows whose title, artist and album columns are refreshed when the
   * now-playing id changes from `previous` to `current`: the old row (only
   * if some song was playing) and then the new row.
   */
  function InvalidatedRows(songs: seq<Song>, previous: int, current: int): seq<int>
  {
    (if previous != -1 then [RowOf(songs, previous)] else []) + [RowOf(songs, current)]
  }

  /**
   * Switching from a playing song to another invalidates exactly the two
   * rows that hold them, and a row is never named unless it holds one of
   * the two ids.
   */
  lemma HighlightTransition(songs: seq<Song>, previous: int, current: int)
    ensures |InvalidatedRows(songs, previous, current)| == if previous != -1 then 2 else 1
    ensures forall r :: r in InvalidatedRows(songs, previous, current) ==>
      r == -1 || (0 <= r < |songs| && (songs[r].id == previous || songs[r].id == current))
    ensures forall r :: 0 <= r < |songs| && songs[r].id == current && UniqueIds(songs) ==>
      InvalidatedRows(songs, previous, current)[|InvalidatedRows(songs, previous, current)| - 1] == r
    ensures forall r :: 0 <= r < |songs| && songs[r].id == previous && previous != -1 && UniqueIds(songs) ==>
      InvalidatedRows(songs, previous, current)[0] == r
  {
    forall r | 0 <= r < |songs| && UniqueIds(songs)
      ensures songs[r].id == current ==> RowOf(songs, current) == r
      ensures songs[r].id == previous ==> RowOf(songs, previous) == r
    {
      IdRowRoundTrip(songs, r, current);
      IdRowRoundTrip(songs, r, previous);
    }
  }

  // ---------------------------------------------------------------------
  // Playlist statistics
  // ---------------------------------------------------------------------

  /** The four playlist figures written to the statistics singleton. */
  datatype Stats = Stats(artists: nat, albums: nat, songs: nat, time: U32)

  /** Which string the distinct count is taken over. */
  datatype Tag = ArtistTag | AlbumTag

  function TagOf(song: Song, tag: Tag): string
  {
    match tag
    case ArtistTag => song.artist
    case AlbumTag => song.album
  }

  /** The set of distinct artist (or album) strings, built song by song. */
  function Distinct(songs: seq<Song>, tag: Tag): (values: set<string>)
    ensures |values| <= |songs|
    ensures songs != [] ==> |values| >= 1
  {
    if songs == [] then {}
    else
      var earlier := Distinct(songs[..|songs| - 1], tag);
      var v := TagOf(songs[|songs| - 1], tag);
      assert |earlier + {v}| <= |earlier| + 1 by {
        if v !in earlier { assert earlier + {v} - {v} == earlier; }
        else { assert earlier + {v} == earlier; }
      }
      earlier + {v}
  }

  /** A string is counted exactly when some song carries it. */
  lemma {:induction false} DistinctMembers(songs: seq<Song>, tag: Tag, v: string)
    ensures v in Distinct(songs, tag) <==> exists i :: 0 <= i < |songs| && TagOf(songs[i], tag) == v
    decreases |songs|
  {
    if songs != [] {
      var front := songs[..|songs| - 1];
      DistinctMembers(front, tag, v);
      if exists i :: 0 <= i < |songs| && TagOf(songs[i], tag) == v {
        var i :| 0 <= i < |songs| && TagOf(songs[i], tag) == v;
        if i < |songs| - 1 { assert front[i] == songs[i]; }
      }
      if exists i :: 0 <= i < |front| && TagOf(front[i], tag) == v {
        var i :| 0 <= i < |front| && TagOf(front[i], tag) == v;
        assert songs[i] == front[i];
      }
    }
  }

  /** Sum of the song durations, in whole seconds. */
  function TotalTime(songs: seq<Song>): nat
  {
    if songs == [] then 0 else TotalTime(songs[..|songs| - 1]) + songs[|songs| - 1].time
  }

  /**
   * playListStats: zero for the sentinel; otherwise distinct artists,
   * distinct albums, the number of songs and the total time, the last
   * accumulated in a quint32.
   */
  function PlaylistStats(songs: seq<Song>): (stats: Stats)
    ensures IsEmptySentinel(songs) ==> stats == Stats(0, 0, 0, 0)
    ensures !IsEmptySentinel(songs) ==> stats.songs == |songs|
    ensures stats.artists <= stats.songs && stats.albums <= stats.songs
    ensures !IsEmptySentinel(songs) && songs != [] ==> stats.artists >= 1 && stats.albums >= 1
    ensures !IsEmptySentinel(songs) ==> stats.time == ToU32(TotalTime(songs))
    ensures !IsEmptySentinel(songs) && TotalTime(songs) < TWO_32 ==> stats.time == TotalTime(songs)
  {
    if IsEmptySentinel(songs) then Stats(0, 0, 0, 0)
    else Stats(|Distinct(songs, ArtistTag)|, |Distinct(songs, AlbumTag)|, |songs|, ToU32(TotalTime(songs)))
  }

  /**
   * The artist and album figures are the numbers of distinct strings the
   * songs carry.
   */
  lemma StatsCountDistinct(songs: seq<Song>)
    requires !IsEmptySentinel(songs)
    ensures PlaylistStats(songs).artists == |set i | 0 <= i < |songs| :: songs[i].artist|
    ensures PlaylistStats(songs).albums == |set i | 0 <= i < |songs| :: songs[i].album|
  {
    forall v ensures v in Distinct(songs, ArtistTag) <==> v in (set i | 0 <= i < |songs| :: songs[i].artist) {
      DistinctMembers(songs, ArtistTag, v);
    }
    forall v ensures v in Distinct(songs, AlbumTag) <==> v in (set i | 0 <= i < |songs| :: songs[i].album) {
      DistinctMembers(songs, AlbumTag, v);
    }
    assert Distinct(songs, ArtistTag) == set i | 0 <= i < |songs| :: songs[i].artist;
    assert Distinct(songs, AlbumTag) == set i | 0 <= i < |songs| :: songs[i].album;
  }

  /**
   * Three songs by artists A, A, B on albums X, Y, X lasting 100, 200 and 50
   * seconds: two artists, two albums, three songs, 350 seconds.
   */
  lemma StatsExample(a: Song, b: Song, c: Song)
    requires a.artist == b.artist != c.artist
    requires a.album == c.album != b.album
    requires a.time == 100 && b.time == 200 && c.time == 50
    ensures PlaylistStats([a, b, c]) == Stats(2, 2, 3, 350)
  {
    ArtistsExample(a, b, c);
    AlbumsExample(a, b, c);
    TimeExample(a, b, c);
  }

  lemma ArtistsExample(a: Song, b: Song, c: Song)
    requires a.artist == b.artist != c.artist
    ensures Distinct([a, b, c], ArtistTag) == {a.artist, c.artist}
  {
    var songs := [a, b, c];
    assert songs[..2][..1] == songs[..1] == [a] && songs[..2] == [a, b];
    assert Distinct(songs[..1], ArtistTag) == {a.artist};
    assert Distinct(songs[..2], ArtistTag) == {a.artist};
  }

  lemma AlbumsExample(a: Song, b: Song, c: Song)
    requires a.album == c.album != b.album
    ensures Distinct([a, b, c], AlbumTag) == {a.album, b.album}
  {
    var songs := [a, b, c];
    assert songs[..2][..1] == songs[..1] == [a] && songs[..2] == [a, b];
    assert Distinct(songs[..1], AlbumTag) == {a.album};
    assert Distinct(songs[..2], AlbumTag) == {a.album, b.album};
  }

  lemma TimeExample(a: Song, b: Song, c: Song)
    requires a.time == 100 && b.time == 200 && c.time == 50
    ensures TotalTime([a, b, c]) == 350
  {
    var songs := [a, b, c];
    assert songs[..2][..1] == songs[..1] == [a] && songs[..2] == [a, b];
    assert TotalTime(songs[..1]) == 100;
    assert TotalTime(songs[..2]) == 300;
  }

  /** The sentinel has zero statistics even though it holds one record. */
  lemma SentinelStats(s: Song)
    requires s.title == "" && s.artist == "" && s.album == ""
    ensures IsEmptySentinel([s]) && PlaylistStats([s]) == Stats(0, 0, 0, 0)
    ensures Distinct([s], ArtistTag) == {""} && Distinct([s], AlbumTag) == {""}
    ensures PlaylistStats([s.(title := "t")]).songs == 1
  {
  }
}
