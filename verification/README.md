# QtMPC playlist table model in Dafny

This project models the table model behind QtMPC's playlist view
(`PlaylistTableModel`, in `src/gui/playlisttablemodel.cpp`) and proves
properties of it. The model holds three pieces of state:

- the ordered list of songs in the current MPD playlist;
- the id of the song now playing;
- the row the user last clicked.

It covers these operations:

- the lookups between rows, song ids and playlist positions;
- the refresh of the now-playing highlight;
- wholesale replacement of the playlist;
- the drag payload (one position per dragged row);
- the two kinds of drop: reordering songs already in the playlist, and adding files from the music library;
- the playlist statistics: distinct artists, distinct albums, song count and total time.

Files:

- `word32.dfy` (`Word32`): quint32 and qint32, the `static_cast`s between them, and `QString::toUInt`. Dafny integers are unbounded, so every wrap-around is written out.
- `sorting.dfy` (`Sorting`): `qSort` with `qLess` or `qGreater`, modelled by insertion sort. A proof that a sorted permutation is unique shows that the choice of algorithm does not affect the result.
- `songs.dfy` (`Songs`): the song record, the empty-playlist sentinel, the row and id lookups, and the playlist statistics as specification functions.
- `drag_drop.dfy` (`DragDrop`):
  - the drag payload;
  - the reference definition of an internal move (`ResolveMove`);
  - the boundary scan, both as the code writes it and corrected;
  - the file-drop insertion request;
  - the lemmas about these.
- `playlist_table_model.dfy` (`PlaylistTable`): the class `PlaylistTableModel`, with fields `songs`, `songId` and `lastClickedRow`. Its methods follow the C++ step by step, loops included. Each is proved against the specification functions above.

A Qt signal the source emits (`moveInPlaylist`, `filesAddedInPlaylist`, `dataChanged`, the statistics update) is returned from the method as a value. The move payload is a sequence of integers, already read from its stream.

## Model

| member | source | states |
|---|---|---|
| PlaylistTable.PlaylistTableModel.constructor | src/gui/playlisttablemodel.cpp:31-34 | a new model has no songs and no song playing (id -1) |
| PlaylistTable.PlaylistTableModel.RowCount | src/gui/playlisttablemodel.cpp:66-68 | rowCount is the number of songs; the row just past the last one answers -1 to getIdByRow |
| PlaylistTable.PlaylistTableModel.GetIdByRow | src/gui/playlisttablemodel.cpp:133-139 | delegates to `IdAt`: -1 at or past `rowCount`, else the id of the song at that row |
| PlaylistTable.PlaylistTableModel.GetPosByRow | src/gui/playlisttablemodel.cpp:141-147 | delegates to `PosAt`: -1 at or past `rowCount`, else the song's position, unchanged when it fits a qint32 and negative when it does not |
| PlaylistTable.PlaylistTableModel.SongIdToRow | src/gui/playlisttablemodel.cpp:310-318 | the linear scan returns exactly `RowOf`: the first row holding the id, or -1 when no song has it |
| PlaylistTable.PlaylistTableModel.UpdateCurrentSong | src/gui/playlisttablemodel.cpp:109-121 | the new now-playing id is the 32-bit id read as qint32. The rows to redraw are the old song's row (only when a song was playing) and then the new song's row. Nothing else changes |
| PlaylistTable.PlaylistTableModel.UpdateSongs | src/gui/playlisttablemodel.cpp:123-131 | after replacement the model holds exactly the new list, `rowCount` equals its length, and the statistics raised by the reset are those of the new list |
| PlaylistTable.PlaylistTableModel.Clicked | src/gui/playlisttablemodel.cpp:327-329 | the clicked index's row becomes the drag origin; nothing else changes |
| PlaylistTable.PlaylistTableModel.MimeData | src/gui/playlisttablemodel.cpp:176-199 | the payload holds one position per distinct valid row, in first-seen order, under the song-move format only |
| PlaylistTable.PlaylistTableModel.DropMimeData | src/gui/playlisttablemodel.cpp:212-308 | an ignored action is accepted with no signal. A move payload is accepted and resolves as `ResolveMove` (no signal when the drop lands on the drag origin). A file payload is accepted and resolves as `FileDrop`. Anything else is refused with no signal |
| PlaylistTable.PlaylistTableModel.DropSongMove | src/gui/playlisttablemodel.cpp:220-275 | the imperative move branch produces exactly the instruction `ResolveMove` defines, or nothing when the shift is 0 |
| PlaylistTable.PlaylistTableModel.ReadMoveText | src/gui/playlisttablemodel.cpp:232-242 | the read loop keeps every decoded number when the drop row is non-negative and none otherwise |
| PlaylistTable.PlaylistTableModel.FindBound | src/gui/playlisttablemodel.cpp:254-266 | the scan ends one past the last item whose 32-bit destination crosses the boundary, or at 0 when none crosses |
| PlaylistTable.PlaylistTableModel.ResortCrossing | src/gui/playlisttablemodel.cpp:254-272 | scan then prefix re-sort gives `Resorted`: the crossing prefix is sorted the other way and the rest is left in place |
| PlaylistTable.PlaylistTableModel.DropLibraryFiles | src/gui/playlisttablemodel.cpp:276-305 | the file branch gives exactly the insertion request `FileDrop` defines |
| PlaylistTable.PlaylistTableModel.PlayListStats | src/gui/playlisttablemodel.cpp:341-375 | the accumulation loop gives exactly `PlaylistStats` of the current songs |
| PlaylistTable.StatsStep | src/gui/playlisttablemodel.cpp:361-366 | one loop step adds the song's artist and album to the running sets. It adds its time to the quint32 total, which agrees with the full sum reduced modulo 2^32 |
| Songs.IsEmptySentinel | src/gui/playlisttablemodel.cpp:297-298 | the empty-playlist sentinel is exactly a one-song list with an empty title whose only artist and only album are the empty string |
| Songs.IdAt | src/gui/playlisttablemodel.cpp:133-139 | getIdByRow: -1 at or past the end of the list, else the id of the song at that row |
| Songs.PosAt | src/gui/playlisttablemodel.cpp:141-147 | getPosByRow: -1 at or past the end of the list. Otherwise the position, unchanged when it fits a qint32 and negative when it does not |
| Songs.RowOf | src/gui/playlisttablemodel.cpp:310-318 | songIdToRow reference: the result is -1 exactly when no song has the id; otherwise the song at that row has the id and no earlier song does |
| Songs.IdRowRoundTrip | src/gui/playlisttablemodel.cpp:310-318 | with unique ids, a row holds an id if and only if songIdToRow maps that id back to the row |
| Songs.HighlightTransition | src/gui/playlisttablemodel.cpp:109-121 | two rows are redrawn when a song was playing and one otherwise, never more. Every redrawn row is -1 or holds the old or new id. With unique ids, the last redrawn row is the new song's row, and the first is the old song's row when one was playing |
| Songs.Distinct | src/gui/playlisttablemodel.cpp:343-364 | the set of distinct artists (or albums) has at most one entry per song and at least one for a non-empty list |
| Songs.DistinctMembers | src/gui/playlisttablemodel.cpp:361-364 | a string is in the distinct set exactly when some song carries it |
| Songs.PlaylistStats | src/gui/playlisttablemodel.cpp:341-375 | the sentinel gives all-zero statistics. Otherwise: the song count is the list length; distinct artists and albums are between 1 and the song count; the time is the total reduced modulo 2^32, and equals the total when the total fits |
| Songs.StatsCountDistinct | src/gui/playlisttablemodel.cpp:360-370 | outside the sentinel, the artist and album figures are the numbers of distinct artist and album strings among the songs |
| Songs.StatsExample | src/gui/playlisttablemodel.cpp:360-372 | artists A, A, B on albums X, Y, X lasting 100, 200 and 50 seconds give 2 artists, 2 albums, 3 songs and 350 seconds |
| Songs.SentinelStats | src/gui/playlisttablemodel.cpp:347-358 | a single song with empty title, artist and album is the sentinel and gives zero statistics, although it carries one distinct (empty) artist and album; a non-empty title makes it count as one song |
| Sorting.Insert | src/gui/playlisttablemodel.cpp:246-252 | insertion adds exactly one copy of the element and keeps a sorted list sorted |
| Sorting.Sort | src/gui/playlisttablemodel.cpp:246-252 | the result is a sorted permutation of the input under the chosen comparison |
| Sorting.SortedUnique | src/gui/playlisttablemodel.cpp:246-252 | two sorted permutations of each other are equal, so any sorting algorithm gives the same list |
| Sorting.SortIs | src/gui/playlisttablemodel.cpp:268-272 | any sorted permutation of the input is what Sort returns |
| Sorting.ResortPrefix | src/gui/playlisttablemodel.cpp:268-272 | re-sorting a prefix of an already sorted list in the same direction leaves the list unchanged |
| Word32.ToU32 | src/gui/playlisttablemodel.cpp:274 | static_cast to quint32 keeps values in range and adds 2^32 to negative ones |
| Word32.ToI32 | src/gui/playlisttablemodel.cpp:257 | static_cast to qint32 keeps the signed range and subtracts 2^32 from the upper half of the unsigned range |
| Word32.ToUInt | src/gui/playlisttablemodel.cpp:241 | toUInt returns the number when it fits a quint32, and 0 (failure) for negative or oversized numbers |
| Word32.SignedRoundTrip | src/gui/playlisttablemodel.cpp:274 | a signed shift cast to quint32 and read back as qint32 is unchanged |
| Word32.AddReduced | src/gui/playlisttablemodel.cpp:365 | adding to a running quint32 total agrees modulo 2^32 with adding to the unreduced sum, for both the unsigned and the signed reading |
| DragDrop.DraggedRows | src/gui/playlisttablemodel.cpp:186-195 | no row appears twice, and a row is listed exactly when some valid dragged index has it |
| DragDrop.DragRoundTrip | src/gui/playlisttablemodel.cpp:187-194 | when every dragged row exists and its position fits a qint32, decoding the payload on drop gives back each dragged song's position, row by row |
| DragDrop.Bound | src/gui/playlisttablemodel.cpp:254-266 | the bound lies within the list, the item just before it crosses, and no item from the bound on crosses |
| DragDrop.ResolveMove | src/gui/playlisttablemodel.cpp:220-275 | no instruction exactly when the drop row equals the drag origin. Otherwise the items are a permutation of the decoded positions, and empty when the drop row is negative. The shift is one less than the row difference moving down and equal to it moving up. The last row is the list length minus 1 |
| DragDrop.Resorted | src/gui/playlisttablemodel.cpp:268-272 | the re-sort keeps the length and the multiset. The items from the bound on keep their place; the items before it are sorted the other way round |
| DragDrop.CrossingPrefix | src/gui/playlisttablemodel.cpp:254-266 | in a list sorted in the drag direction, with no 32-bit wrap, every item before the bound crosses the boundary, so the crossing items form a prefix |
| DragDrop.MoveOrder | src/gui/playlisttablemodel.cpp:246-272 | the emitted list has the sorted list's length. From the bound on it equals the sorted list, and none of those items crosses. Before the bound it is sorted opposite to the shift's sign |
| DragDrop.MoveCrossing | src/gui/playlisttablemodel.cpp:254-272 | for a non-zero adjusted shift without 32-bit wrap, every emitted item before the bound crosses the boundary |
| DragDrop.ResortedPrefixCrosses | src/gui/playlisttablemodel.cpp:268-272 | re-sorting the crossing prefix keeps only crossing items in it |
| DragDrop.MoveDownOne | src/gui/playlisttablemodel.cpp:247-249 | a drop one row below the origin emits shift 0 and the positions sorted descending |
| DragDrop.ShiftOnTheWire | src/gui/playlisttablemodel.cpp:274 | the quint32 the shift is sent as is the shift plus 2^32 when negative, and reading it as qint32 recovers the shift |
| DragDrop.Destination | src/gui/playlisttablemodel.cpp:257 | without wrap, the destination computed in quint32 and read as qint32 is the plain sum |
| DragDrop.ScanAsWritten | src/gui/playlisttablemodel.cpp:244-266 | the scan as written, from a given item on: the iterator either keeps its value, exactly when no later item crosses, or ends one past a crossing item |
| DragDrop.BoundAsWritten | src/gui/playlisttablemodel.cpp:244-266 | the scan as written never sets its iterator to an element of the list exactly when no item crosses; when it is set, it agrees with `Bound` |
| DragDrop.BoundNeverSetExample | src/gui/playlisttablemodel.cpp:244-272 | dragging row 3 of ten songs two rows down never sets the scan's iterator to an element of the list, while the corrected move shifts the item by 1 with nothing re-sorted |
| DragDrop.FileDrop | src/gui/playlisttablemodel.cpp:276-305 | the insertion request carries the dropped names (none for a negative drop row). Its size is the song count the statistics report. Its row is 0 on the empty-playlist sentinel and the drop row otherwise |

## Left out

- `src/beautify/IconLoader.cpp` is not part of this model. It only selects icon resource paths.
- The QMimeData and QDataStream encoding is not modelled. A payload is a sequence of already-read numbers or file names. `QString::number` followed by `toUInt` is modelled as `Word32.ToUInt` on the number.
- Qt signals and slots are not modelled, including the `modelReset` connection to `playListReset`. Each signal is a returned value, and `UpdateSongs` returns the statistics the reset recomputes.
- The statistics singleton's read/write lock is not modelled. The four figures are returned as one record.
- The display members `headerData`, `data`, `flags`, `supportedDropActions`, `mimeTypes` and `columnCount` are not modelled. Neither are the song fields `track` and `disc`, which only `data` reads, nor `file`, which `playlisttablemodel.cpp` never reads.
- The `delete` loops in the destructor and in `updateSongs` are not modelled; songs are values here.
- PlaylistTable.PlaylistTableModel.constructor: `lastClickedRow` is left unspecified, because the C++ constructor never initialises it. A drop before any click reads an indeterminate row.
- PlaylistTable.PlaylistTableModel.UpdateCurrentSong: only the row of each `dataChanged` range is returned; the range always covers columns 0 to 2.
- Songs.IdAt and Songs.PosAt require a non-negative row. `songs.at()` on a negative row is undefined in Qt, and the C++ only guards the upper end.
- DragDrop.ResolveMove: `row - lastClickedRow` is computed without C++ `int` overflow. Qt row numbers never come near 2^31.
- DragDrop.MoveInstruction keeps the shift signed. The `static_cast<quint32>` on the emitted shift is stated separately by `DragDrop.ShiftOnTheWire`.
- DragDrop.CrossingPrefix and DragDrop.MoveCrossing assume that no destination leaves the qint32 range. With 32-bit wrap, a non-crossing item can sort before a crossing one. `ResolveMove` itself models the wrap.
- Songs.PlaylistStats keeps the artist, album and song counts as unbounded naturals. The C++ casts them to quint32, which matters only past 2^32 songs.
- `qSort` is modelled by insertion sort. `Sorting.SortedUnique` shows that the result does not depend on the algorithm. Stability is irrelevant, because equal quint32 values cannot be told apart.

## Findings

| source | as written | input that shows it | evidently intended | confidence | as-written member | corrected member |
|---|---|---|---|---|---|---|
| src/gui/playlisttablemodel.cpp:244-272 | the iterator `bound` is default-constructed (a null iterator) and set to a place in `items` only when an item crosses the boundary. If none crosses, or the list is empty, `qSort(items.begin(), bound)` is given a range whose end does not lie in the list, which is undefined behaviour | positions [3], drag origin row 3, drop row 5, 10 songs: the adjusted shift is 1 and 3 + 1 < 9, so nothing crosses | `bound` starts at `items.begin()`: an empty prefix with nothing re-sorted. The model's moves use this definition | not executed | DragDrop.BoundNeverSetExample | DragDrop.Bound |
