/**
 * The playlist table model: the songs of the current playlist, the id of the
 * song now playing and the row last clicked, with the operations the view
 * and the connection layer call. Signals the source emits are returned.
 */
module PlaylistTable {
  import opened Word32
  import opened Sorting
  import opened Songs
  import opened DragDrop

  class PlaylistTableModel {
    /** The playlist, in display order. */
    var songs: seq<Song>
    /** Id of the song now playing; -1 when none has been reported. */
    var songId: I32
    /** Row of the last click, where a drag starts. */
    var lastClickedRow: int

    /** A model with no songs and no song playing; the last clicked row is left indeterminate. */
    constructor ()
      ensures songs == [] && songId == -1
    {
      songs := [];
      songId := -1;
    }

    /** rowCount: one row per song; asking for the id of the row just past the last gives -1. */
    function RowCount(): (n: nat)
      reads this
      ensures n == |songs| && IdAt(songs, n) == -1
    {
      |songs|
    }

    /** getIdByRow, answered by `IdAt` on the current songs. */
    function GetIdByRow(row: int): (id: int)
      reads this
      requires 0 <= row
      ensures row >= RowCount() ==> id == -1
      ensures row < RowCount() ==> id == songs[row].id
    {
      IdAt(songs, row)
    }

    /** getPosByRow, answered by `PosAt` on the current songs. */
    function GetPosByRow(row: int): (pos: I32)
      reads this
      requires 0 <= row
      ensures row >= RowCount() ==> pos == -1
      ensures row < RowCount() && songs[row].pos < TWO_31 ==> pos == songs[row].pos
      ensures row < RowCount() && songs[row].pos >= TWO_31 ==> pos < 0
    {
      PosAt(songs, row)
    }

    /** The first row holding `id`, by linear scan, or -1. */
    method SongIdToRow(id: int) returns (row: int)
      ensures row == RowOf(songs, id)
    {
      for i := 0 to |songs|
        invariant forall j :: 0 <= j < i ==> songs[j].id != id
      {
        if songs[i].id == id {
          return i;
        }
      }
      return -1;
    }

    /**
     * Records the song now playing and returns the rows whose first three
     * columns must be redrawn: the previous song's row, if a song was
     * playing, then the new song's row.
     */
    method UpdateCurrentSong(id: U32) returns (invalidated: seq<int>)
      modifies this`songId
      ensures songId == ToI32(id)
      ensures invalidated == InvalidatedRows(songs, old(songId), songId)
    {
      var oldIndex := songId;
      songId := ToI32(id);
      invalidated := [];
      if oldIndex != -1 {
        var oldRow := SongIdToRow(oldIndex);
        invalidated := [oldRow];
      }
      var newRow := SongIdToRow(songId);
      invalidated := invalidated + [newRow];
    }

    /**
     * Replaces the playlist. The model reset this raises recomputes the
     * statistics, which are returned.
     */
    method UpdateSongs(newSongs: seq<Song>) returns (stats: Stats)
      modifies this`songs
      ensures songs == newSongs && RowCount() == |newSongs|
      ensures stats == PlaylistStats(newSongs)
    {
      songs := newSongs;
      stats := PlayListStats();
    }

    /** Remembers the row clicked, where the next drag starts. */
    method Clicked(index: ModelIndex)
      modifies this`lastClickedRow
      ensures lastClickedRow == index.row
    {
      lastClickedRow := index.row;
    }

    /** The payload of a drag: one getPosByRow number per dragged row. */
    method MimeData(indexes: seq<ModelIndex>) returns (data: MimePayload)
      ensures data == MimePayload(Some(EncodedPositions(songs, DraggedRows(indexes))), None)
    {
      var rows: seq<nat> := [];
      var text: seq<int> := [];
      for k := 0 to |indexes|
        invariant rows == DraggedRows(indexes[..k])
        invariant text == EncodedPositions(songs, rows)
      {
        assert indexes[..k + 1][..k] == indexes[..k];
        var index := indexes[k];
        if index.IsValid() {
          if index.row in rows {
            continue;
          }
          text := text + [GetPosByRow(index.row)];
          rows := rows + [index.row];
        }
      }
      assert indexes[..|indexes|] == indexes;
      data := MimePayload(Some(text), None);
    }

    /**
     * Acts on a drop at `row`: an ignored action is accepted as is; an
     * internal move resolves to a move instruction; library files resolve to
     * an insertion request; any other payload is refused.
     */
    method DropMimeData(data: MimePayload, action: DropAction, row: int) returns (accepted: bool, emission: Emission)
      ensures action == IgnoreAction ==> accepted && emission == NoEmission
      ensures action != IgnoreAction && data.songMoveText.Some? ==>
        accepted && emission == AsEmission(ResolveMove(data.songMoveText.value, row, lastClickedRow, |songs|))
      ensures action != IgnoreAction && data.songMoveText.None? && data.filenameText.Some? ==>
        accepted && emission == FileDrop(songs, data.filenameText.value, row)
      ensures action != IgnoreAction && data.songMoveText.None? && data.filenameText.None? ==>
        !accepted && emission == NoEmission
    {
      if action == IgnoreAction {
        return true, NoEmission;
      }
      if data.songMoveText.Some? {
        emission := DropSongMove(data.songMoveText.value, row);
        return true, emission;
      } else if data.filenameText.Some? {
        emission := DropLibraryFiles(data.filenameText.value, row);
        return true, emission;
      }
      return false, NoEmission;
    }

    /** The internal-move branch of a drop. */
    method DropSongMove(text: seq<int>, row: int) returns (emission: Emission)
      ensures emission == AsEmission(ResolveMove(text, row, lastClickedRow, |songs|))
    {
      var diff := row - lastClickedRow;
      if diff == 0 {
        return NoEmission;
      }
      var items := ReadMoveText(text, row);

      // Sort in the drag direction: qGreater moving down, qLess moving up.
      var sorted := Sort(items, diff > 0);
      if diff > 0 {
        diff := diff - 1;
      }

      items := ResortCrossing(sorted, diff, |songs| - 1);
      ResolvedMove(text, row, lastClickedRow, |songs|, sorted, diff);
      emission := MoveInPlaylist(MoveInstruction(items, diff, |songs| - 1));
    }

    /** Reads the dragged positions back; a drop not between two rows (row -1) keeps none. */
    static method ReadMoveText(text: seq<int>, row: int) returns (items: seq<U32>)
      ensures items == DroppedItems(text, row)
    {
      items := [];
      for k := 0 to |text|
        invariant items == DroppedItems(text[..k], row)
      {
        if row < 0 {
          continue;
        }
        items := items + [ToUInt(text[k])];
      }
      assert text[..|text|] == text;
    }

    /** Re-sorts, the other way round, the leading items that run past an end. */
    static method ResortCrossing(items: seq<U32>, diff: int, lastRow: int) returns (resorted: seq<U32>)
      ensures resorted == Resorted(items, diff, lastRow)
    {
      var bound := FindBound(items, diff, lastRow);
      resorted := Sort(items[..bound], diff <= 0) + items[bound..];
    }

    /**
     * One past the last item whose destination runs over the last row
     * (moving down) or under the first row (moving up); 0 when none does.
     */
    static method FindBound(items: seq<U32>, diff: int, lastRow: int) returns (bound: nat)
      ensures bound == Bound(items, diff, lastRow)
    {
      bound := 0;
      for i := 0 to |items|
        invariant bound == Bound(items[..i], diff, lastRow)
      {
        assert items[..i + 1][..i] == items[..i];
        if diff > 0 {
          if ToI32(items[i] + ToU32(diff)) >= lastRow {
            bound := i + 1;
          }
        } else {
          if ToI32(items[i] + ToU32(diff)) <= 0 {
            bound := i + 1;
          }
        }
      }
      assert items[..|items|] == items;
    }

    /** The library-files branch of a drop. */
    method DropLibraryFiles(filenames: seq<string>, row: int) returns (emission: Emission)
      ensures emission == FileDrop(songs, filenames, row)
    {
      var kept: seq<string> := [];
      for k := 0 to |filenames|
        invariant kept == if row < 0 then [] else filenames[..k]
      {
        if row < 0 {
          continue;
        }
        kept := kept + [filenames[k]];
      }
      assert filenames[..|filenames|] == filenames;
      if IsEmptySentinel(songs) {
        emission := FilesAddedInPlaylist(kept, 0, 0);
      } else {
        emission := FilesAddedInPlaylist(kept, row, |songs|);
      }
    }

    /** Recomputes the playlist statistics in one pass over the songs. */
    method PlayListStats() returns (stats: Stats)
      ensures stats == PlaylistStats(songs)
    {
      if IsEmptySentinel(songs) {
        return Stats(0, 0, 0, 0);
      }
      var artists: set<string> := {};
      var albums: set<string> := {};
      var time: U32 := 0;
      for i := 0 to |songs|
        invariant artists == Distinct(songs[..i], ArtistTag)
        invariant albums == Distinct(songs[..i], AlbumTag)
        invariant time == ToU32(TotalTime(songs[..i]))
      {
        StatsStep(songs, i, time);
        var current := songs[i];
        artists := artists + {current.artist};
        albums := albums + {current.album};
        time := ToU32(time + current.time);
      }
      StatsOfWhole(songs, artists, albums, time);
      stats := Stats(|artists|, |albums|, |songs|, time);
    }
  }

  /** One more song extends each running figure of the statistics by that song. */
  lemma StatsStep(songs: seq<Song>, i: nat, time: U32)
    requires i < |songs|
    requires time == ToU32(TotalTime(songs[..i]))
    ensures Distinct(songs[..i + 1], ArtistTag) == Distinct(songs[..i], ArtistTag) + {songs[i].artist}
    ensures Distinct(songs[..i + 1], AlbumTag) == Distinct(songs[..i], AlbumTag) + {songs[i].album}
    ensures ToU32(time + songs[i].time) == ToU32(TotalTime(songs[..i + 1]))
  {
    var front := songs[..i + 1];
    assert front[..i] == songs[..i];
    var total := TotalTime(songs[..i]);
    assert TotalTime(front) == total + songs[i].time;
    AddReduced(total, songs[i].time);
  }

  /** The running figures after the last song are the statistics of the playlist. */
  lemma StatsOfWhole(songs: seq<Song>, artists: set<string>, albums: set<string>, time: int)
    requires !IsEmptySentinel(songs)
    requires artists == Distinct(songs[..|songs|], ArtistTag)
    requires albums == Distinct(songs[..|songs|], AlbumTag)
    requires time == ToU32(TotalTime(songs[..|songs|]))
    ensures PlaylistStats(songs) == Stats(|artists|, |albums|, |songs|, time)
  {
    assert songs[..|songs|] == songs;
  }
}
