/**
 * Drag and drop on the playlist: the payload a drag carries, the move
 * instruction an internal drop resolves to, and the insertion request a drop
 * of library files resolves to.
 */
module DragDrop {
  import opened Word32
  import opened Sorting
  import opened Songs

  datatype Option<T> = None | Some(value: T)

  /** The Qt drop actions the model distinguishes. */
  datatype DropAction = IgnoreAction | CopyAction | MoveAction

  /** A view index into the table; Qt calls it valid when row and column are non-negative. */
  datatype ModelIndex = ModelIndex(row: int, column: int)
  {
    predicate IsValid()
    {
      row >= 0 && column >= 0
    }
  }

  /**
   * The dragged data, already decoded from its stream: the numbers written
   * under "application/qtmpc_song_move_text" and the file names written
   * under "application/qtmpc_songs_filename_text". Either may be absent.
   */
  datatype MimePayload = MimePayload(songMoveText: Option<seq<int>>, filenameText: Option<seq<string>>)

  /**
   * What moveInPlaylist carries: the positions to move, in the order to move
   * them, the signed shift, and the index of the last row.
   */
  datatype MoveInstruction = MoveInstruction(items: seq<U32>, diff: int, lastRow: int)

  /** The signal a drop raises, if any. */
  datatype Emission =
    | NoEmission
    | MoveInPlaylist(move: MoveInstruction)
    | FilesAddedInPlaylist(filenames: seq<string>, row: int, size: int)

  /** The signal an internal move raises: none when the drop is a no-op. */
  function AsEmission(r: Option<MoveInstruction>): Emission
  {
    match r
    case None => NoEmission
    case Some(m) => MoveInPlaylist(m)
  }

  // ---------------------------------------------------------------------
  // Drag side: the payload of a drag
  // ---------------------------------------------------------------------

  /**
   * The rows of the valid dragged indexes, each once, in the order first met.
   * A view hands over one index per cell, so a row arrives once per column.
   */
  function DraggedRows(indexes: seq<ModelIndex>): (rows: seq<nat>)
    ensures forall i, j :: 0 <= i < j < |rows| ==> rows[i] != rows[j]
    ensures forall r: int :: r in rows <==>
      exists k :: 0 <= k < |indexes| && indexes[k].IsValid() && indexes[k].row == r
    decreases |indexes|
  {
    if indexes == [] then []
    else
      var front := indexes[..|indexes| - 1];
      var earlier := DraggedRows(front);
      var index := indexes[|indexes| - 1];
      assert forall k :: 0 <= k < |front| ==> front[k] == indexes[k];
      if index.IsValid() && index.row !in earlier then earlier + [index.row] else earlier
  }

  /** One getPosByRow number per dragged row. */
  function EncodedPositions(songs: seq<Song>, rows: seq<nat>): seq<int>
  {
    seq(|rows|, k requires 0 <= k < |rows| => PosAt(songs, rows[k]))
  }

  /** The positions decoded on the drop side, one toUInt per number. */
  function Decode(text: seq<int>): seq<U32>
  {
    seq(|text|, k requires 0 <= k < |text| => ToUInt(text[k]))
  }

  /**
   * Dragging rows of the playlist and decoding the payload gives back the
   * positions of the dragged songs, each row once, provided every dragged
   * row exists and its position fits a qint32.
   */
  lemma DragRoundTrip(songs: seq<Song>, indexes: seq<ModelIndex>)
    requires forall k :: 0 <= k < |indexes| && indexes[k].IsValid() ==>
      indexes[k].row < |songs| && songs[indexes[k].row].pos < TWO_31
    ensures var rows := DraggedRows(indexes);
      var items := Decode(EncodedPositions(songs, rows));
      |items| == |rows| && forall k :: 0 <= k < |rows| ==> rows[k] < |songs| && items[k] == songs[rows[k]].pos
  {
    var rows := DraggedRows(indexes);
    forall k | 0 <= k < |rows|
      ensures rows[k] < |songs| && ToUInt(PosAt(songs, rows[k])) == songs[rows[k]].pos
    {
      assert rows[k] in rows;
      var j :| 0 <= j < |indexes| && indexes[j].IsValid() && indexes[j].row == rows[k];
    }
  }

  // ---------------------------------------------------------------------
  // Drop side: an internal move
  // ---------------------------------------------------------------------

  /** The decoded positions the drop keeps: none at all for a drop not between two rows (row -1). */
  function DroppedItems(text: seq<int>, row: int): seq<U32>
  {
    if row < 0 then [] else Decode(text)
  }

  /** A downward drop lands one row past where the moved rows end up, so it shifts one less. */
  function AdjustedDiff(diff: int): int
  {
    if diff > 0 then diff - 1 else diff
  }

  /**
   * Whether an item's destination, computed in 32-bit arithmetic, reaches
   * the last row (positive shift) or the first row (otherwise).
   */
  predicate Crosses(item: U32, diff: int, lastRow: int)
  {
    var destination := ToI32(item + ToU32(diff));
    if diff > 0 then destination >= lastRow else destination <= 0
  }

  /**
   * Where the boundary scan leaves `bound`: one past the last crossing item,
   * or 0 when no item crosses.
   */
  function Bound(items: seq<U32>, diff: int, lastRow: int): (bound: nat)
    ensures bound <= |items|
    ensures bound > 0 ==> Crosses(items[bound - 1], diff, lastRow)
    ensures forall k :: bound <= k < |items| ==> !Crosses(items[k], diff, lastRow)
    decreases |items|
  {
    if items == [] then 0
    else if Crosses(items[|items| - 1], diff, lastRow) then |items|
    else Bound(items[..|items| - 1], diff, lastRow)
  }

  /**
   * The internal-move branch of dropMimeData, from the decoded payload, the
   * drop row, the row the drag started from and the number of rows. No
   * instruction when the drop lands where the drag started; otherwise the
   * dropped positions, sorted in the drag direction with the items that
   * cross the boundary re-sorted the other way, the adjusted shift and the
   * last row.
   */
  function ResolveMove(text: seq<int>, row: int, lastClickedRow: int, count: int): (r: Option<MoveInstruction>)
    ensures r.None? <==> row == lastClickedRow
    ensures r.Some? ==> multiset(r.value.items) == multiset(DroppedItems(text, row))
    ensures r.Some? && row < 0 ==> r.value.items == []
    ensures r.Some? && row > lastClickedRow ==> r.value.diff == row - lastClickedRow - 1
    ensures r.Some? && row < lastClickedRow ==> r.value.diff == row - lastClickedRow
    ensures r.Some? ==> r.value.lastRow == count - 1
  {
    var diff := row - lastClickedRow;
    if diff == 0 then None
    else
      var d := AdjustedDiff(diff);
      Some(MoveInstruction(Resorted(Sort(DroppedItems(text, row), diff > 0), d, count - 1), d, count - 1))
  }

  /**
   * The sorted items with those before `bound` re-sorted the other way round
   * (ascending for a positive shift, descending otherwise); the rest keep
   * their place.
   */
  function Resorted(items: seq<U32>, diff: int, lastRow: int): (r: seq<U32>)
    ensures |r| == |items| && multiset(r) == multiset(items)
    ensures var bound := Bound(items, diff, lastRow);
      r[bound..] == items[bound..] && Sorted(r[..bound], diff <= 0)
  {
    var bound := Bound(items, diff, lastRow);
    assert items == items[..bound] + items[bound..];
    var r := Sort(items[..bound], diff <= 0) + items[bound..];
    assert r[..bound] == Sort(items[..bound], diff <= 0);
    r
  }

  /** The instruction ResolveMove gives, from its two intermediate results. */
  lemma ResolvedMove(text: seq<int>, row: int, lastClickedRow: int, count: int, sorted: seq<U32>, diff: int)
    requires row != lastClickedRow
    requires sorted == Sort(DroppedItems(text, row), row - lastClickedRow > 0)
    requires diff == AdjustedDiff(row - lastClickedRow)
    ensures ResolveMove(text, row, lastClickedRow, count) == Some(MoveInstruction(Resorted(sorted, diff, count - 1), diff, count - 1))
  {
  }

  /** No dragged item's destination leaves the qint32 range. */
  ghost predicate NoWrap(items: seq<U32>, diff: int)
  {
    forall x :: x in items ==> -TWO_31 <= x + diff < TWO_31
  }

  /** Without wrap-around the 32-bit destination is the plain sum. */
  lemma Destination(item: U32, diff: int)
    requires -TWO_31 <= item + diff < TWO_31
    ensures ToI32(item + ToU32(diff)) == item + diff
  {
    AddReduced(diff, item);
  }

  /**
   * In a list sorted in the drag direction, the items that cross the
   * boundary come first: everything before `bound` crosses, nothing after.
   */
  lemma {:induction false} CrossingPrefix(items: seq<U32>, diff: int, lastRow: int)
    requires diff != 0
    requires Sorted(items, diff > 0)
    requires NoWrap(items, diff)
    ensures forall k :: 0 <= k < Bound(items, diff, lastRow) ==> Crosses(items[k], diff, lastRow)
  {
    var b := Bound(items, diff, lastRow);
    if b > 0 {
      assert items[b - 1] in items;
      Destination(items[b - 1], diff);
      forall k | 0 <= k < b ensures Crosses(items[k], diff, lastRow) {
        assert items[k] in items;
        Destination(items[k], diff);
        if k < b - 1 {
          assert InOrder(items[k], items[b - 1], diff > 0);
        }
      }
    }
  }

  /**
   * The order of the emitted items. With `items` the dropped positions sorted
   * descending for a downward drag and ascending otherwise, and `bound` where
   * the scan stops: the items from `bound` on keep that order and none of
   * them crosses, while the items before `bound` are sorted the other way
   * round (ascending when the adjusted shift is positive, descending
   * otherwise).
   */
  lemma MoveOrder(text: seq<int>, row: int, lastClickedRow: int, count: int)
    requires row != lastClickedRow
    ensures var items := Sort(DroppedItems(text, row), row - lastClickedRow > 0);
      var m := ResolveMove(text, row, lastClickedRow, count).value;
      var bound := Bound(items, m.diff, count - 1);
      && |m.items| == |items|
      && (forall k :: bound <= k < |items| ==> m.items[k] == items[k] && !Crosses(m.items[k], m.diff, count - 1))
      && Sorted(m.items[..bound], m.diff <= 0)
  {
    var items := Sort(DroppedItems(text, row), row - lastClickedRow > 0);
    var d := AdjustedDiff(row - lastClickedRow);
    var bound := Bound(items, d, count - 1);
    var prefix := Sort(items[..bound], d <= 0);
    var m := ResolveMove(text, row, lastClickedRow, count).value;
    assert m.items == prefix + items[bound..];
    assert m.items[..bound] == prefix;
  }

  /**
   * Unless the adjusted shift is 0 or a destination wraps, every item before
   * `bound` crosses the boundary; with MoveOrder, the re-sorted items are
   * exactly the crossing ones.
   */
  lemma MoveCrossing(text: seq<int>, row: int, lastClickedRow: int, count: int)
    requires row != lastClickedRow
    requires AdjustedDiff(row - lastClickedRow) != 0
    requires NoWrap(DroppedItems(text, row), AdjustedDiff(row - lastClickedRow))
    ensures var items := Sort(DroppedItems(text, row), row - lastClickedRow > 0);
      var m := ResolveMove(text, row, lastClickedRow, count).value;
      forall k :: 0 <= k < Bound(items, m.diff, count - 1) ==> Crosses(m.items[k], m.diff, count - 1)
  {
    var dropped := DroppedItems(text, row);
    var items := Sort(dropped, row - lastClickedRow > 0);
    var d := AdjustedDiff(row - lastClickedRow);
    var bound := Bound(items, d, count - 1);
    var prefix := Sort(items[..bound], d <= 0);
    var m := ResolveMove(text, row, lastClickedRow, count).value;
    assert m.items == prefix + items[bound..];
    ResortedPrefixCrosses(dropped, items, d, count - 1, prefix);
  }

  /**
   * A drop one row below the drag start has adjusted shift 0: the scan then
   * tests for the first row and the prefix is re-sorted descending, the way
   * it already is, so the emitted list is the descending sort.
   */
  lemma MoveDownOne(text: seq<int>, row: int, lastClickedRow: int, count: int)
    requires row - lastClickedRow == 1
    ensures var m := ResolveMove(text, row, lastClickedRow, count).value;
      m.diff == 0 && m.items == Sort(DroppedItems(text, row), true)
  {
    var items := Sort(DroppedItems(text, row), true);
    var bound := Bound(items, 0, count - 1);
    ResortPrefix(items, bound, true);
  }

  /**
   * Re-sorting the prefix before `bound` keeps exactly crossing items there
   * when the shift neither is 0 nor wraps.
   */
  lemma ResortedPrefixCrosses(dropped: seq<U32>, items: seq<U32>, diff: int, lastRow: int, prefix: seq<U32>)
    requires diff != 0
    requires items == Sort(dropped, diff > 0)
    requires NoWrap(dropped, diff)
    requires prefix == Sort(items[..Bound(items, diff, lastRow)], diff <= 0)
    ensures forall k :: 0 <= k < |prefix| ==> Crosses(prefix[k], diff, lastRow)
  {
    assert NoWrap(items, diff) by {
      forall x | x in items ensures -TWO_31 <= x + diff < TWO_31 {
        assert x in multiset(items);
        assert x in dropped;
      }
    }
    CrossingPrefix(items, diff, lastRow);
    var bound := Bound(items, diff, lastRow);
    forall k | 0 <= k < bound ensures Crosses(prefix[k], diff, lastRow) {
      assert prefix[k] in multiset(prefix);
      assert prefix[k] in items[..bound];
      var j :| 0 <= j < bound && items[..bound][j] == prefix[k];
    }
  }

  /** The shift travels as a quint32; reading it back as a qint32 restores it. */
  lemma ShiftOnTheWire(m: MoveInstruction)
    requires -TWO_31 <= m.diff < TWO_31
    ensures ToU32(m.diff) == if m.diff >= 0 then m.diff else m.diff + TWO_32
    ensures ToI32(ToU32(m.diff)) == m.diff
  {
    SignedRoundTrip(m.diff);
  }

  // ---------------------------------------------------------------------
  // The boundary scan as the source writes it
  // ---------------------------------------------------------------------

  /**
   * The scan loop with the iterator as declared: it starts default-constructed,
   * pointing at no element of the list (None), and becomes one past each
   * crossing item it meets. From item `i` on, with `bound` the iterator so far,
   * it either keeps `bound` (no later item crosses) or ends one past a
   * crossing item at or after `i`.
   */
  function ScanAsWritten(items: seq<U32>, diff: int, lastRow: int, i: nat, bound: Option<nat>): (r: Option<nat>)
    requires i <= |items|
    requires bound.Some? ==> bound.value <= i
    ensures r == bound || (r.Some? && i < r.value <= |items| && Crosses(items[r.value - 1], diff, lastRow))
    ensures r == bound <==> forall k :: i <= k < |items| ==> !Crosses(items[k], diff, lastRow)
    decreases |items| - i
  {
    if i == |items| then bound
    else ScanAsWritten(items, diff, lastRow, i + 1, if Crosses(items[i], diff, lastRow) then Some(i + 1) else bound)
  }

  /** Bound as an iterator: 0 is one that was never set to an element of the list. */
  function AsAssigned(b: nat): Option<nat>
  {
    if b == 0 then None else Some(b)
  }

  lemma {:induction false} ScanFrom(items: seq<U32>, diff: int, lastRow: int, i: nat)
    requires i <= |items|
    ensures ScanAsWritten(items, diff, lastRow, i, AsAssigned(Bound(items[..i], diff, lastRow)))
         == AsAssigned(Bound(items, diff, lastRow))
    decreases |items| - i
  {
    if i == |items| {
      assert items[..i] == items;
    } else {
      assert items[..i + 1][..i] == items[..i];
      ScanFrom(items, diff, lastRow, i + 1);
    }
  }

  /**
   * Where the source's iterator is set at all it agrees with Bound. It is
   * never set to an element of the list exactly when no item crosses; the
   * re-sort is then handed a range whose end does not lie in the list.
   */
  lemma BoundAsWritten(items: seq<U32>, diff: int, lastRow: int)
    ensures var scanned := ScanAsWritten(items, diff, lastRow, 0, None);
      && (scanned.None? <==> forall k :: 0 <= k < |items| ==> !Crosses(items[k], diff, lastRow))
      && (scanned.Some? ==> scanned.value == Bound(items, diff, lastRow))
  {
    assert items[..0] == [];
    ScanFrom(items, diff, lastRow, 0);
  }

  /**
   * Dragging row 3 of a ten-song playlist two rows down: the item does not
   * reach the end, so the source's iterator is never set to an element of
   * the list, while the corrected scan moves it by 1 with nothing re-sorted.
   */
  lemma BoundNeverSetExample()
    ensures ScanAsWritten(Sort(DroppedItems([3], 5), true), 1, 9, 0, None) == None
    ensures ResolveMove([3], 5, 3, 10) == Some(MoveInstruction([3], 1, 9))
  {
    assert DroppedItems([3], 5) == [3];
    SortIs([3], [3], true);
    var items := Sort(DroppedItems([3], 5), true);
    assert !Crosses(3, 1, 9);
    assert Bound(items, 1, 9) == 0;
    assert items[..0] == [] && items[0..] == [3];
    assert ResolveMove([3], 5, 3, 10) == Some(MoveInstruction(Sort(items[..0], false) + items[0..], 1, 9));
    assert Sort(items[..0], false) + items[0..] == [3];
  }

  // ---------------------------------------------------------------------
  // Drop side: files from the music library
  // ---------------------------------------------------------------------

  /**
   * The file-drop branch of dropMimeData: the dropped names (none for a
   * drop not between two rows, row -1), inserted at the drop row of a playlist of the
   * size the statistics report; an empty-playlist sentinel is replaced from
   * row 0.
   */
  function FileDrop(songs: seq<Song>, filenames: seq<string>, row: int): (e: Emission)
    ensures e.FilesAddedInPlaylist?
    ensures e.filenames == if row < 0 then [] else filenames
    ensures e.size == PlaylistStats(songs).songs
    ensures IsEmptySentinel(songs) ==> e.row == 0
    ensures !IsEmptySentinel(songs) ==> e.row == row
  {
    var kept := if row < 0 then [] else filenames;
    if IsEmptySentinel(songs) then FilesAddedInPlaylist(kept, 0, 0)
    else FilesAddedInPlaylist(kept, row, |songs|)
  }
}
