# libgamearchive FAT engine in Dafny

This project models the FAT archive engine of libgamearchive, together with the
per-file stream that callers get back from it.

`FATArchive` keeps three things in step:

- a vector of FAT entries (`vcFAT`), each with an on-disk index, an offset, an embedded
  header length, a stored size, a real size and a validity flag;
- a table of open sub-stream windows (`openFiles`);
- the archive bytes.

`insert`, `remove` and `resize` open or close byte ranges in the archive. Every such edit
goes through `shiftFiles`, which moves the offsets and indices of the entries in range
(decided by `entryInRange`). It then relocates the windows of the open streams that are in
range, and drops expired windows. The per-file stream (`archfile_core` /
`output_archfile`) never stores its window: it recomputes the window from its entry and
fails once the entry has been removed. Truncating such a stream resizes the entry in the
archive.

The project has four modules:

- `ByteStore` (bytestore.dfy): the archive bytes, with a zero-filled insert and a delete
  at a position.
- `Layout` (layout.dfy): the placement arithmetic on values. A `Slot` is an entry's index,
  offset, header length and stored size. This module defines the three structural edits as
  functions and proves the layout theorems about them:
  - the layout stays tiled (dense indices, no overlap, inside the archive);
  - an insert followed by a remove restores the layout;
  - the set of entries that move is exactly a suffix of the vector;
  - the window pass, which runs after the entries have moved, picks out exactly the
    entries that moved;
  - the first-match searches behave as specified;
  - the byte offsets in the Galactix format test come out as expected.
- `FatArchiveModel` (fatarchive.dfy): the engine itself, written imperatively.
  - Entries and streams are heap objects (`FatEntry`, `SubStream`), because the vector,
    the open-file table and callers share them.
  - The archive is a class whose methods mirror the source's loops and field updates.
  - Each method's postcondition ties the new state to the `Layout` functions of the old
    state.
  - Adapter hooks are recorded, with what the adapter can observe at each call, in a ghost
    call log.
  - `Tracking` says that every live stream on a valid entry covers exactly that entry's
    data. `open` and `insert` keep it, and so do `remove` and `resize` in a tiled archive,
    as the comment at src/fatarchive.cpp:273 promises ("open files remain valid").
- `ArchFileModel` (archfile.dfy): the stream over one file: its window, `truncate`,
  `setRealSize` and `flush`.

Where the two source generations disagree, this model reconciles them:

- `src/fatarchive.cpp` has `resize(id, newSize)`, which returns before doing anything when
  the size is unchanged.
- `src/stream_archfile.cpp` calls `resize(id, stored, real)`, and `setRealSize` relies on
  that call recording the real size even when the stored size does not change.
- The model's `Resize` takes both sizes. It always records the real size. When the stored
  size is unchanged it does nothing else: no byte edit, no hook and no shift.

The model follows the code in two places that are easy to misread:

- `open` performs no validity check on the entry, so an invalid entry still gets a window (src/fatarchive.cpp:102-135).
- `preRemoveFile` runs before the entry's bytes are deleted (src/fatarchive.cpp:244-262),
  although its comment says the data has already been removed.

## Model

| member | source | states |
|---|---|---|
| ByteStore.InsertAt | src/fatarchive.cpp:221-222 | inserting n bytes at a position grows the bytes by n, keeps the prefix, fills the gap with zeros and moves the tail forward by n |
| ByteStore.DeleteAt | src/fatarchive.cpp:261-262 | removing n bytes at a position shrinks the bytes by n, keeps the prefix and moves the tail back by n |
| ByteStore.DeleteUndoesInsert | src/fatarchive.cpp:221-222 | deleting the gap an insert opened restores the original bytes |
| ByteStore.InsertMovesTail | src/fatarchive.cpp:286-287 | a byte before the edit point keeps its position; a byte at or after it is found n positions later |
| Layout.EqualsShiftSlots | src/fatarchive.cpp:352-366 | a layout in which every entry is the shifted old entry is the shifted layout |
| Layout.ShiftIsBumpWhere | src/fatarchive.cpp:352-366 | the shift is a bump of exactly the entries that pass the in-range test |
| Layout.ResizeIsBumpWhere | src/fatarchive.cpp:297-304 | a resize is a bump by the size difference, with no index change, of exactly the in-range entries other than the resized one, applied after the resized entry holds its new size |
| Layout.ResizeFlagsIgnoreSize | src/fatarchive.cpp:297-304 | the in-range test of a resize picks the same entries whether or not the resized entry already holds its new size |
| Layout.InsertIsSplice | src/fatarchive.cpp:198-211 | an insert is the shift of the other entries followed by the splice of the new entry just before the old entry of its position |
| Layout.RemoveIsShiftOfErased | src/fatarchive.cpp:247-258 | a remove is the erase of the entry followed by the shift of the rest against the erased entry |
| Layout.InRangeIsSuffix | src/fatarchive.hpp:147-154 | in a tiled layout, with a shift start inside the skip entry's block, the entries that move are exactly those after the skip entry, so a file the start falls inside is not affected |
| Layout.InsertMovesFromPosition | src/fatarchive.cpp:198-203 | the shift of an insert before position p moves exactly the entries from p on |
| Layout.RemoveMovesAfterPosition | src/fatarchive.cpp:253-258 | the shift of a remove at position p moves exactly the entries after p |
| Layout.ResizeMovesAfterPosition | src/fatarchive.cpp:282-304 | the shift of a resize at position p moves exactly the entries after p, whether growing or shrinking |
| Layout.InsertShape | src/fatarchive.cpp:193-211 | after an insert at p, the earlier entries are unchanged, the new entry is at p with the old entry's offset and index, and every later entry has moved by the size and one index |
| Layout.InsertKeepsTiled | src/fatarchive.cpp:193-222 | a mid-archive insert keeps indices dense, blocks disjoint and inside an archive grown by the new size |
| Layout.AppendKeepsTiled | src/fatarchive.cpp:168-178 | an append keeps the layout tiled in an archive grown by the new size |
| Layout.RemoveKeepsTiled | src/fatarchive.cpp:246-262 | a remove keeps the layout tiled in an archive shrunk by the entry's block length |
| Layout.ResizeShape | src/fatarchive.cpp:278-304 | after a resize at p, the earlier entries are unchanged, p keeps offset and index with the new size, and every later entry has moved by the difference with its index unchanged |
| Layout.ResizeKeepsTiled | src/fatarchive.cpp:282-304 | a resize keeps the layout tiled in an archive whose length changed by the difference |
| Layout.InsertRelocatesMoved | src/fatarchive.cpp:368-381 | after an insert, the window pass, which tests the already-moved entries, finds in range exactly the entries that moved |
| Layout.RemoveRelocatesMoved | src/fatarchive.cpp:368-381 | after a remove, the window pass finds in range exactly the entries that moved |
| Layout.ResizeRelocatesMoved | src/fatarchive.cpp:368-381 | after a resize, the window pass finds in range exactly the entries that moved |
| Layout.ForwardShiftKeepsFlags | src/fatarchive.cpp:368-381 | the window pass of an insert, run on the moved entries, finds in range exactly the entries the entry pass moved |
| Layout.RemoveKeepsFlags | src/fatarchive.cpp:368-381 | in a tiled layout, the window pass of a remove, run on the moved entries, finds in range exactly the entries the entry pass moved |
| Layout.ResizeKeepsFlags | src/fatarchive.cpp:368-381 | in a tiled layout, the window pass of a resize, run on the moved entries, finds in range exactly the entries other than the resized one that the entry pass moved |
| Layout.RemoveAfterInsert | src/fatarchive.cpp:253-258 | removing the entry an insert spliced in leaves the insert's shift followed by the remove's shift |
| Layout.ShiftBackUndoesShift | src/fatarchive.cpp:353-362 | in a tiled layout, the remove's backward shift undoes the insert's forward shift |
| Layout.RemoveUndoesInsert | src/fatarchive.cpp:137-270 | removing an entry just inserted before position p restores the previous layout |
| Layout.RemoveUndoesAppend | src/fatarchive.cpp:214-258 | removing an entry just appended restores the previous layout |
| Layout.FirstFrom | src/fatarchive.cpp:339-345 | the position of the first entry whose data starts at or after the window start: every earlier entry starts before it, and the entry at that position does not |
| Layout.FirstFromIs | src/fatarchive.cpp:339-345 | any position with the first-match property is the one FirstFrom gives |
| Layout.FirstFromOwner | src/fatarchive.cpp:332-346 | looking up an entry's own window finds that entry or an earlier empty entry at the same data start (in which case the entry has no header) |
| Layout.FirstFromEmptyNeighbour | src/fatarchive.cpp:341 | an empty entry at the same offset takes over its follower's window in the lookup |
| Layout.PositionOf | src/fatarchive.cpp:49-56 | the position of the first entry with the index: no earlier entry has it, and the entry at that position does |
| Layout.PositionOfIs | src/fatarchive.cpp:51-55 | any position with the first-match property is the one PositionOf gives |
| Layout.PositionOfTiled | src/fatarchive.cpp:49-56 | in a tiled layout the entry with index i is at position i, and an index outside the vector is found nowhere |
| Layout.GalactixInsertMid | tests/test-fmt-glb-galactix.cpp:87-98 | inserting THREE.DAT before TWO.DAT moves TWO.DAT from 0x7f to 0x90 with index 1 to 2, and THREE.DAT takes 0x7f |
| Layout.GalactixEnlarge | tests/test-fmt-glb-galactix.cpp:153-162 | enlarging ONE.DAT to 20 bytes moves TWO.DAT from 0x63 to 0x68 and keeps its index |
| Layout.GalactixShrink | tests/test-fmt-glb-galactix.cpp:164-173 | shrinking ONE.DAT to 10 bytes moves TWO.DAT from 0x63 to 0x5e |
| Layout.ZeroLengthTieBreak | src/fatarchive.cpp:462-472 | of two empty entries at one offset, an insert before the second leaves the first in place and moves the second behind the new entry |
| FatArchiveModel.EntryInRangeIff | src/fatarchive.cpp:444-476 | entryInRange holds exactly when the entry starts at or after the threshold and, if the skip entry is valid, it is not the skip entry and passes the zero-length tie-break; an invalid or null skip disables both exclusions |
| FatArchiveModel.InRangeOthers | src/fatarchive.cpp:453-472 | with a valid skip entry outside the vector, the in-range flags are exactly the layout test on the placements |
| FatArchiveModel.InRangeMember | src/fatarchive.cpp:453-476 | with the entry at p as the valid skip entry, the in-range flags are the layout test on the placements, with p itself never in range |
| FatArchiveModel.LiveOnly | src/fatarchive.cpp:420-442 | the cleaned table is no longer than the table and holds only live elements of it |
| FatArchiveModel.LiveOnlyKeepsLive | src/fatarchive.cpp:420-442 | every live stream of the table survives the clean-up |
| FatArchiveModel.LiveOnlyBetween | src/fatarchive.cpp:420-442 | the clean-up keeps exactly the live streams of the table |
| FatArchiveModel.LiveOnlyDropsExpired | src/fatarchive.cpp:431-436 | erasing one expired element does not change the live part of the table |
| FatArchiveModel.LiveOnlyKeepsAllLive | src/fatarchive.cpp:424-439 | a table whose streams are all alive is left as it is |
| FatArchiveModel.DroppedStreamUntouched | src/fatarchive.cpp:307-317 | a stream the clean-up dropped is not the stream of any element still in the table, so the resize loop cannot reach it |
| FatArchiveModel.DistinctSplice | src/fatarchive.cpp:208-211 | splicing a new entry into the vector keeps every entry in it once |
| FatArchiveModel.DistinctErase | src/fatarchive.cpp:247-249 | erasing an entry from the vector keeps the others once each and removes it entirely |
| FatArchiveModel.DropKeepsDistinct | src/fatarchive.cpp:434 | erasing an element of the open-file table keeps each stream in it once |
| FatArchiveModel.AddKeepsDistinct | src/fatarchive.cpp:130-133 | registering a new stream keeps each stream of the table once |
| FatArchiveModel.IEqualsIsEquivalence | src/fatarchive.cpp:88 | the case-insensitive name match is reflexive, symmetric and transitive |
| FatArchiveModel.UpperMatches | src/fatarchive.cpp:88 | two characters fold alike exactly when they are equal or are one ASCII letter in its two cases; folding twice is folding once, and never yields a lower-case letter |
| FatArchiveModel.IEqualsIff | src/fatarchive.cpp:88 | two names match exactly when they have the same length and agree at every position up to the case of an ASCII letter |
| FatArchiveModel.IEqualsMixedCase | src/fatarchive.cpp:88 | names that differ only in case match, other names do not |
| FatArchiveModel.GetFileAt | src/fatarchive.cpp:49-56 | returns the first file with the on-disk index, or null exactly when no file has it |
| FatArchiveModel.IndexOf | src/fatarchive.cpp:247-248 | std::find returns the first position holding the entry |
| FatArchiveModel.FatEntry.Blank | src/fatarchive.cpp:146-154 | a new entry carries the name, size and compressed flag given, has no header, and is not yet valid |
| FatArchiveModel.FatEntry.Parsed | src/fatarchive.hpp:46-53 | an entry read from the on-disk FAT carries the index, offset, header length and sizes given, and is valid |
| FatArchiveModel.SubStream.Relocate | src/fatarchive.cpp:377 | the window start moves by exactly the delta |
| FatArchiveModel.SubStream.SetSize | src/fatarchive.cpp:313 | the window size becomes exactly the new size |
| FatArchiveModel.SubStream.Release | src/fatarchive.hpp:89-95 | once the last holder drops the stream, the table's weak reference has expired |
| FatArchiveModel.SubStream.constructor | src/fatarchive.cpp:120-126 | a new stream is live, with the window start and size given |
| FatArchiveModel.FatArchive.constructor | src/fatarchive.cpp:58-63 | a new archive has no entries, no open files and no hook calls, holds the given bytes and first-file offset, and is valid |
| FatArchiveModel.FatArchive.MoveOne | src/fatarchive.cpp:354-362 | an entry is bumped by the offset and index deltas exactly when it was in range before the step, and otherwise keeps its placement |
| FatArchiveModel.FatArchive.MoveEach | src/fatarchive.cpp:352-363 | the moved flags are the in-range flags of the entries judged before the pass, and the new placements are the old ones bumped exactly where flagged |
| FatArchiveModel.FatArchive.EntryPass | src/fatarchive.cpp:352-363 | the entries in range are bumped; a window that started at its entry's data is then off by the delta exactly when its entry is in range, as long as the window pass judges the same entries in range |
| FatArchiveModel.FatArchive.MoveEntries | src/fatarchive.hpp:161-173 | the adapter gets one updateFileOffset call per moved entry, in vector order, each with the entry's new offset and new index; the flags are the in-range test judged before any entry moves, the placements are bumped exactly where flagged, and no window moves yet |
| FatArchiveModel.FatArchive.RelocateWindows | src/fatarchive.cpp:369-381 | every window is moved by the delta exactly when its entry is valid, in range and the stream is live; the dirty flag is set exactly when some window's entry is invalid |
| FatArchiveModel.FatArchive.WindowPass | src/fatarchive.cpp:368-381 | the windows the entry pass left off by the delta line up with their entries again; no entry moves |
| FatArchiveModel.FatArchive.Prune | src/fatarchive.cpp:382-384 | the clean-up keeps exactly the live streams, in order; every listed window stays in the table and every live one is kept, so the table gains no stream and loses only expired ones; every window that started at its entry's data, or matched its entry's size, still does; no entry moves |
| FatArchiveModel.FatArchive.UpdateWindows | src/fatarchive.cpp:368-384 | the window pass, followed by the clean-up exactly when a window on an invalid entry was seen; every listed window stays in the table and every live one is kept, so the table gains no stream and loses only expired ones; windows left off by the delta line up with their entries again and window sizes that matched still match; no entry moves |
| FatArchiveModel.FatArchive.ShiftFiles | src/fatarchive.cpp:348-387 | entries in range (judged before they move) are bumped by the deltas and the others are unchanged; the offset hook sees each move; windows move as RelocateWindows says; the table is cleaned exactly when a window's entry is invalid, so it keeps every live stream and gains none; window sizes that matched still match, and when the window pass judges the same entries in range as the entry pass, every window that started at its entry's data still does |
| FatArchiveModel.FatArchive.NewEntry | src/fatarchive.cpp:146-179 | the new entry takes the offset and index of a valid entry it goes before, otherwise the end and next index of the last entry, otherwise the first-file offset and index 0 |
| FatArchiveModel.FatArchive.Propose | src/fatarchive.cpp:146-183 | the new entry is blank, not yet valid, placed as NewEntry says and not in any open window; preInsertFile is recorded with the entry it goes before (or none) and the archive size; tiling and window tracking are unchanged |
| FatArchiveModel.FatArchive.Admit | src/fatarchive.cpp:183-224 | a rejected name changes nothing but the entry, which stays invalid; an accepted one is listed, shifted or appended and its gap opened as AddEntry says; the table keeps every live stream and gains none; window tracking is kept, and tiling too for a headerless entry |
| FatArchiveModel.FatArchive.Announce | src/fatarchive.cpp:183-187 | the adapter call is appended to the log and nothing else changes |
| FatArchiveModel.FatArchive.MakeRoom | src/fatarchive.cpp:198-211 | with the new, already valid entry as the skip entry, every entry from its data start on moves by its size and one index, the entry it goes before is found at its position, and the offset hook sees each move; every listed window stays in the table and every live one is kept, so the table gains no stream and loses only expired ones; every window still covers exactly its entry's data |
| FatArchiveModel.FatArchive.ShiftForward | src/fatarchive.cpp:198-203 | the shift of an insert is ShiftSlots of the old layout and moves exactly the entries the layout test picks, with one offset hook call per move; every listed window stays in the table and every live one is kept, so the table gains no stream and loses only expired ones; window sizes still match their entries, and so do window starts when the window pass agrees with the entry pass |
| FatArchiveModel.FatArchive.InsertMid | src/fatarchive.cpp:195-211 | the new entry is spliced in just before the entry it goes before, the vector's placements become InsertSlots of the old ones, and the offset hook sees each move; every listed window stays in the table and every live one is kept, so the table gains no stream and loses only expired ones; every window still covers exactly its entry's data |
| FatArchiveModel.FatArchive.SpliceAt | src/fatarchive.cpp:208-214 | the new entry enters the vector at the given position and nothing else changes |
| FatArchiveModel.FatArchive.Accept | src/fatarchive.cpp:183-193 | the new entry gets the header length the adapter chose and becomes valid before any shift |
| FatArchiveModel.FatArchive.Fill | src/fatarchive.cpp:221-224 | the archive gains exactly the entry's size in zero bytes just after its header, and then postInsertFile is called |
| FatArchiveModel.FatArchive.Enlist | src/fatarchive.cpp:195-215 | before a valid entry: shift and splice, with the offset hook calls; otherwise: append, with no shift, no hook and the table as it was; every listed window stays in the table and every live one is kept, so the table gains no stream and loses only expired ones; every window still covers exactly its entry's data |
| FatArchiveModel.FatArchive.Enter | src/fatarchive.cpp:195-224 | the accepted entry is listed at its place with the others shifted, or appended; the bytes gain a gap of its size at its data start; the hooks are the shift's offset calls and then postInsertFile; every listed window stays in the table and every live one is kept, so the table gains no stream and loses only expired ones; every window still covers exactly its entry's data |
| FatArchiveModel.FatArchive.AddEntry | src/fatarchive.cpp:189-224 | the accepted entry is valid with the adapter's header length, listed at its place, the others are shifted or it is appended, and the bytes gain a gap of its size at its data start; every listed window stays in the table and every live one is kept, so the table gains no stream and loses only expired ones; every window still covers exactly its entry's data, and a tiled archive stays tiled when the entry has no header |
| FatArchiveModel.FatArchive.InsertTiles | src/fatarchive.cpp:193-222 | a headerless insert or append into a tiled archive of valid entries leaves a tiled archive of valid entries |
| FatArchiveModel.FatArchive.Insert | src/fatarchive.cpp:137-227 | a rejected name leaves the vector, the placements, the table, the window starts and the bytes untouched and records only preInsertFile; otherwise the new entry is listed valid, with the layout becoming InsertSlots or AppendSlots of the old one, the bytes gaining its size at its data start, and the hooks called in order; preInsertFile sees the new entry not yet valid and not in the vector, with the offset and index of the entry it goes before; every listed window stays in the table and every live one is kept, so the table gains no stream and loses only expired ones; every open window still covers exactly its entry's data, and a tiled archive stays tiled when the new entry has no header |
| FatArchiveModel.FatArchive.Remove | src/fatarchive.cpp:229-270 | the entry leaves the vector, the layout becomes RemoveSlots of the old one, the bytes lose exactly its block at its offset, and the entry becomes invalid with its other fields unchanged; the hooks are preRemoveFile, the offset calls and postRemoveFile; every listed window stays in the table and every live one is kept, so the table gains no stream and loses only expired ones; a tiled archive stays tiled, and in it every open window on another entry still covers exactly that entry's data |
| FatArchiveModel.FatArchive.Drop | src/fatarchive.cpp:246-267 | the work of remove after preRemoveFile: erase, shift back, delete the bytes, invalidate and call postRemoveFile; every listed window stays in the table and every live one is kept, so the table gains no stream and loses only expired ones; a tiled archive stays tiled, keeping every other window on its entry |
| FatArchiveModel.FatArchive.Discard | src/fatarchive.cpp:261-267 | the entry's block is deleted from the bytes, and postRemoveFile sees the entry invalid but with its offset and size unchanged; no placement and no earlier offset call changes, so the layout a remove's shift left tiled in the shrunk archive is tiled once the bytes are gone |
| FatArchiveModel.FatArchive.Invalidate | src/fatarchive.cpp:264-265 | the removed entry is marked invalid and no listed placement changes |
| FatArchiveModel.FatArchive.TakeOut | src/fatarchive.cpp:246-258 | the entry is erased and the rest of the vector is shifted back, becoming RemoveSlots of the old layout, with one offset hook call per move; every listed window stays in the table and every live one is kept, so the table gains no stream and loses only expired ones; window sizes still match, and in a tiled archive every window on another entry still starts at its entry's data and the new layout is tiled in the archive shrunk by the entry's block |
| FatArchiveModel.FatArchive.CloseGap | src/fatarchive.cpp:253-258 | with the erased, still valid entry as the skip entry, the layout becomes RemoveSlots of the layout before the erase; every listed window stays in the table and every live one is kept, so the table gains no stream and loses only expired ones; window sizes still match, and in a tiled layout window starts on the other entries still match and the new layout is tiled in the shrunk archive |
| FatArchiveModel.FatArchive.GapTiles | src/fatarchive.cpp:253-258 | after a remove's shift of a tiled layout, the layout is tiled in the shrunk archive and the window pass, testing the moved entries, flags exactly what the entry pass flagged |
| FatArchiveModel.FatArchive.ShiftBack | src/fatarchive.cpp:253-258 | everything from the erased entry's offset on moves back by its block length and down one index, exactly the entries the layout test picks; every listed window stays in the table and every live one is kept, so the table gains no stream and loses only expired ones; window sizes still match, and window starts too when the window pass agrees with the entry pass |
| FatArchiveModel.FatArchive.Erase | src/fatarchive.cpp:247-249 | the entry at the position leaves the vector, and the vector still holds each entry once |
| FatArchiveModel.FatArchive.Resize | src/fatarchive.cpp:273-320 | an unchanged stored size changes nothing but the real size; growing inserts at the old data end, shrinking deletes at the new data end, and updateFileSize comes before the offset calls; the entry keeps offset and index; the layout becomes ResizeSlots of the old one; every live window on the entry gets the new size and no other window changes size; every listed window stays in the table and every live one is kept, so the table gains no stream and loses only expired ones; a tiled archive stays tiled, and in it every open window still covers exactly its entry's data |
| FatArchiveModel.FatArchive.ResizeStored | src/fatarchive.cpp:281-317 | a resize that changes the stored size: the byte edit at the edit point, the new size, updateFileSize then the offset calls, the layout becoming ResizeSlots of the old one, and the window sizes; every listed window stays in the table and every live one is kept, so the table gains no stream and loses only expired ones; a tiled archive stays tiled with every window still covering exactly its entry's data |
| FatArchiveModel.FatArchive.ResizeTiles | src/fatarchive.cpp:282-304 | a resize of a tiled layout of valid entries, with the archive length changed by the difference, leaves a tiled archive |
| FatArchiveModel.FatArchive.SetReal | src/stream_archfile.cpp:150 | the real size is recorded; no placement, layout invariant or window changes |
| FatArchiveModel.FatArchive.ChangeStored | src/fatarchive.cpp:297-317 | the size, hooks, shift and window sizes of a resize that changes the stored size; every listed window stays in the table and every live one is kept, so the table gains no stream and loses only expired ones; in a tiled layout every window still covers exactly its entry's data |
| FatArchiveModel.FatArchive.EditBytes | src/fatarchive.cpp:282-295 | a gap of the difference opens at the old end of the data when growing, and the difference is deleted at the new end when shrinking |
| FatArchiveModel.FatArchive.Regrow | src/fatarchive.cpp:297-304 | the new size is recorded, updateFileSize is called, and the entries after the edit point shift; every listed window stays in the table and every live one is kept, so the table gains no stream and loses only expired ones; window starts still match in a tiled layout, and window sizes on other entries still match |
| FatArchiveModel.FatArchive.SetStored | src/fatarchive.hpp:175-187 | updateFileSize is called with the entry's size already set to the new one; windows on other entries keep matching their sizes |
| FatArchiveModel.FatArchive.ShiftAfterResize | src/fatarchive.cpp:302-304 | with the resized entry as the skip entry, what starts at or after the edit point moves by the difference and keeps its index; every listed window stays in the table and every live one is kept, so the table gains no stream and loses only expired ones; in a tiled layout every window still starts at its entry's data |
| FatArchiveModel.FatArchive.ShiftSkipping | src/fatarchive.cpp:304 | the resize shift is ResizeSlots of the layout before the size change, moving exactly the entries the layout test picks other than the resized one; every listed window stays in the table and every live one is kept, so the table gains no stream and loses only expired ones |
| FatArchiveModel.FatArchive.Rewindow | src/fatarchive.cpp:306-317 | every live window on the entry gets the new size, and every other window of the table the resize started from keeps its size; window sizes then all match their entries again |
| FatArchiveModel.FatArchive.ResizeWindows | src/fatarchive.cpp:307-317 | every live window on the entry gets the new size, including several windows on one entry, and every other window keeps its size |
| FatArchiveModel.FatArchive.Open | src/fatarchive.cpp:102-135 | a new live window over exactly the entry's data is registered at the end of the table, and a table that tracked its entries still tracks them; opening an entry twice registers two windows for it |
| FatArchiveModel.FatArchive.Find | src/fatarchive.cpp:79-93 | returns the first entry in vector order whose name matches ignoring case, and null exactly when no name matches |
| FatArchiveModel.FatArchive.EntryPtrFromStream | src/fatarchive.cpp:332-346 | returns the first entry in vector order whose data starts at or after the window start, and null exactly when there is none |
| FatArchiveModel.FatArchive.Flush | src/fatarchive.cpp:322-330 | the committed bytes become the archive's current bytes |
| FatArchiveModel.FatArchive.CleanOpenSubstreams | src/fatarchive.cpp:420-442 | the table ends up holding exactly its live elements, in their order |
| ArchFileModel.ArchFile.constructor | src/stream_archfile.cpp:119-126 | the stream holds the archive and the entry, with its write position at 0 |
| ArchFileModel.ArchFile.SubStart | src/stream_archfile.cpp:83-94 | the window starts at the entry's offset plus header length, and access fails exactly when the entry is invalid |
| ArchFileModel.ArchFile.SubSize | src/stream_archfile.cpp:96-107 | the window size is the entry's stored size, and access fails exactly when the entry is invalid |
| ArchFileModel.ArchFile.Relocate | src/stream_archfile.cpp:73-76 | always fails |
| ArchFileModel.ArchFile.Resize | src/stream_archfile.cpp:78-81 | always fails |
| ArchFileModel.ArchFile.SeekP | src/stream_archfile.cpp:152-158 | a seek succeeds exactly within the live window, and a failed seek leaves the position where it was |
| ArchFileModel.ArchFile.Truncate | src/stream_archfile.cpp:128-160 | a closed stream fails and the current size succeeds, both changing nothing: bytes, hooks, layout, table, window starts and sizes stay as they were; otherwise the entry is resized, keeping a compressed entry's real size and setting an uncompressed one's to the new size, the layout becomes ResizeSlots of the old one, the bytes are edited and the hooks called as the archive's resize does, live windows on the entry get the new size and other windows keep theirs, the table keeps every live stream and gains none, tiling and window tracking are kept, and the write position is at the new end |
| ArchFileModel.ArchFile.ResizeAndSeek | src/stream_archfile.cpp:133-158 | the entry gets the new stored size, a compressed entry keeps its real size and an uncompressed one gets the new size, the layout becomes ResizeSlots of the old one, the bytes gain or lose the difference at the edit point, updateFileSize and the offset calls are recorded, live windows on the entry get the new size and others keep theirs, the table keeps every live stream and gains none, tiling and window tracking are kept, and the seek to the new end succeeds |
| ArchFileModel.ArchFile.SetRealSize | src/stream_archfile.cpp:162-166 | the real size becomes the new value, while the stored size, the layout, the bytes, the hook log, the open-file table and every window's start and size are unchanged, so windows that covered their entries' data still do |
| ArchFileModel.ArchFile.Flush | src/stream_archfile.cpp:168-181 | the archive is committed exactly when this stream is its sole owner, and otherwise nothing is committed |
| ArchFileModel.WindowAgrees | src/stream_archfile.cpp:83-107 | the window a stream recomputes from its entry equals the window the archive keeps for every live registration of that entry |
| ArchFileModel.WindowInStore | src/stream_archfile.cpp:83-107 | in a tiled archive, the window of a stream on a listed entry lies inside the archive bytes |

## Left out

- Format adapters: the hooks (`preInsertFile`, `postInsertFile`, `preRemoveFile`, `postRemoveFile`, `updateFileOffset`, `updateFileSize`) are not run. Each call is appended to a ghost log, together with what the adapter can see at that moment.
- Adapter side effects: some adapters write or insert bytes of their own (for example an embedded header) or call `shiftFiles` themselves. These edits are not modelled, and neither is preInsertFile returning a different entry object of record. The adapter's decision is a parameter: reject the name, or accept it with a chosen header length.
- FatArchiveModel.FatArchive.MoveEntries: the updateFileOffset calls are appended to the log after the loop rather than during it. Each logged call records the entry with its new offset and new index, which is what the adapter reads; an entry's other fields are not copied into the log.
- FatArchiveModel.FatArchive.Insert, Remove, Resize and the methods between them and ShiftFiles state the open-file table after the edit by membership (no stream is gained, every live stream is kept), not by an equation for its order; the exact clean-up (`LiveOnly` of the old table, exactly when a stream on an invalid entry was seen) is stated on ShiftFiles, UpdateWindows and Prune.
- Filters and codecs, `applyFilter`, and the `FixedEntry` branch of `sub_start` and `sub_size`: their code is not part of this model.
- Storage errors: the byte container's seeks are treated as always succeeding. Preconditions demand that the byte range of the entry being edited lies inside the archive.
- Exceptions and assertions: the `assert(isValid(id))` checks of `remove` and `resize` become preconditions, which also demand that the entry is listed in the vector (`id in fat`); the source only asserts validity, but every valid entry is listed. A rejected name becomes the `NameRejected` result, a closed stream `ClosedFile`, a failed seek after truncate `WriteError`, and the refused `relocate`/`resize` `NotSupported`.
- Ownership: `shared_ptr`/`weak_ptr` become a `live` flag on each stream, and `archive.unique()` becomes a `soleOwner` parameter of `Flush`.
- `openFiles` is a multimap ordered by entry address. The model keeps it as a sequence in insertion order, so the position `Open` gives a new stream (the end of the table) is a property of the model only. Membership, the `LiveOnly` clean-up and window tracking do not depend on that order.
- Vector order: the source allows `vcFAT` in any order. The layout theorems (`Tiled` and the lemmas built on it) require index order, which appending through `vcFAT.back()` relies on too.
- FatArchiveModel.FatArchive.Insert: the layout is proved to stay tiled (Layout.InsertKeepsTiled) only for entries without an embedded header, because the header bytes are written by the adapter, which is not modelled.
- ArchFileModel.ArchFile.SeekP: the seek covers only the `stream::start` origin, within 0 up to the window size.
- The write position's behaviour for reads and writes is not modelled, and neither is the sub-stream's clipping of data to its window: that is library code.
- Name matching uses case folding of ASCII letters only, as `std::toupper` does in the "C" locale.
- `commit(fnTruncate)` is reduced to copying the current bytes into `committed`.
- `FATEntry::getContent` is debug formatting. `getFileList` returns the vector, which is the field `fat`.
- The format registration in src/main.cpp is not part of this model.
