/** The stream a caller gets for one file of a FAT archive (output_archfile over
    archfile_core). It holds the archive and the entry; its window is not stored but
    recomputed from the entry on every access, so it follows every shift the archive makes
    and fails once the entry has been removed. Truncating it resizes the entry in the
    archive. */
module ArchFileModel {
  import opened ByteStore
  import opened Layout
  import opened FatArchiveModel

  class ArchFile {
    const archive: FatArchive
    const id: FatEntry
    var position: int      // the stream's write position

    constructor (archive: FatArchive, id: FatEntry)
      ensures this.archive == archive && this.id == id && position == 0
    {
      this.archive := archive;
      this.id := id;
      position := 0;
    }

    /** archfile_core::sub_start: where the window starts, i.e. the first data byte of the
        entry; a removed entry cannot be accessed. */
    function SubStart(): (r: Result<int>)
      reads id
      ensures r.Success? <==> id.valid
      ensures r.Success? ==> r.value == DataStart(id.Place())
      ensures r.Failure? ==> r.error == ClosedFile
    {
      if !id.valid then Failure(ClosedFile) else Success(id.offset + id.lenHeader)
    }

    /** archfile_core::sub_size: the window is the entry's stored data. */
    function SubSize(): (r: Result<nat>)
      reads id
      ensures r.Success? <==> id.valid
      ensures r.Success? ==> r.value == id.storedSize
      ensures r.Failure? ==> r.error == ClosedFile
    {
      if !id.valid then Failure(ClosedFile) else Success(id.storedSize)
    }

    /** archfile_core::relocate: the archive never pushes a new window into this stream. */
    method Relocate(delta: int) returns (r: Result<()>)
      ensures r == Failure(NotSupported)
    {
      r := Failure(NotSupported);
    }

    /** archfile_core::resize: likewise refused; the window size comes from the entry. */
    method Resize(len: nat) returns (r: Result<()>)
      ensures r == Failure(NotSupported)
    {
      r := Failure(NotSupported);
    }

    /** seekp(target, start) on the window: a position from 0 up to the end of the window
        is accepted, anything else fails and leaves the position where it was. */
    method SeekP(target: int) returns (ok: bool)
      modifies this`position
      ensures ok <==> id.valid && 0 <= target <= id.storedSize
      ensures position == if ok then target else old(position)
    {
      var w := SubSize();
      if w.Success? && 0 <= target <= w.value {
        position := target;
        ok := true;
      } else {
        ok := false;
      }
    }

    /** output_archfile::truncate: a closed stream fails, the current size changes nothing;
        otherwise the entry is resized in the archive (an uncompressed entry's real size
        becomes the new size, a compressed one keeps its real size for the filter to set)
        and the write position goes to the new end, which the resize has made reachable. */
    method Truncate(size: nat) returns (r: Result<()>, ghost p: nat, ghost moved: seq<bool>)
      requires archive.Valid()
      requires id.valid ==> id in archive.fat && 0 <= DataStart(id.Place()) && End(id.Place()) <= |archive.store|
      modifies this`position, archive`hooks, archive`openFiles, archive`store, id`storedSize, id`realSize
      modifies archive.FatSet()`offset, archive.FatSet()`index, archive.Subs()`start, archive.Subs()`size
      ensures archive.Valid()
      ensures !old(id.valid) || size == old(id.storedSize) ==>
        && r == (if old(id.valid) then Success(()) else Failure(ClosedFile))
        && position == old(position) && archive.store == old(archive.store) && archive.hooks == old(archive.hooks)
        && id.storedSize == old(id.storedSize) && id.realSize == old(id.realSize)
        && Slots(archive.fat) == old(Slots(archive.fat)) && archive.openFiles == old(archive.openFiles)
        && (forall o :: o in archive.openFiles ==> o.sub.start == old(o.sub.start) && o.sub.size == old(o.sub.size))
      ensures old(id.valid) && size != old(id.storedSize) ==>
        && r == Success(()) && position == size
        && id.storedSize == size && id.realSize == (if id.compressed then old(id.realSize) else size)
        && p < |archive.fat| && archive.fat[p] == id
        && Slots(archive.fat) == ResizeSlots(old(Slots(archive.fat)), p, size)
        && (size > old(id.storedSize) ==>
              archive.store == InsertAt(old(archive.store), old(End(id.Place())), size - old(id.storedSize)))
        && (size < old(id.storedSize) ==>
              archive.store == DeleteAt(old(archive.store), old(DataStart(id.Place())) + size, old(id.storedSize) - size))
        && |moved| == |archive.fat|
        && archive.hooks == old(archive.hooks) + [UpdateFileSize(id, size, size - old(id.storedSize))]
             + OffsetCalls(archive.fat, moved, size - old(id.storedSize))
        && (forall o :: o in old(archive.openFiles) && o.entry == id && o.sub.live ==> o.sub.size == size)
        && (forall o :: o in old(archive.openFiles) && !(o.entry == id && o.sub.live) ==> o.sub.size == old(o.sub.size))
      ensures forall o :: o in archive.openFiles ==> o in old(archive.openFiles)
      ensures forall o :: o in old(archive.openFiles) && o.sub.live ==> o in archive.openFiles
      ensures old(archive.Tiled()) && old(archive.Tracking()) ==> archive.Tracking()
      ensures old(archive.Tiled()) ==> archive.Tiled()
    {
      p, moved := 0, [];
      var current := SubSize();
      if current.Failure? {
        return Failure(ClosedFile), p, moved;
      }
      if current.value == size {
        return Success(()), p, moved;
      }
      r, p, moved := ResizeAndSeek(size);
    }

    /** The resizing half of truncate, on an open stream whose size changes. */
    method ResizeAndSeek(size: nat) returns (r: Result<()>, ghost p: nat, ghost moved: seq<bool>)
      requires archive.Valid() && id.valid && id in archive.fat && size != id.storedSize
      requires 0 <= DataStart(id.Place()) && End(id.Place()) <= |archive.store|
      modifies this`position, archive`hooks, archive`openFiles, archive`store, id`storedSize, id`realSize
      modifies archive.FatSet()`offset, archive.FatSet()`index, archive.Subs()`start, archive.Subs()`size
      ensures archive.Valid()
      ensures r == Success(()) && position == size
      ensures id.storedSize == size && id.realSize == (if id.compressed then old(id.realSize) else size)
      ensures p < |archive.fat| && archive.fat[p] == id
      ensures Slots(archive.fat) == ResizeSlots(old(Slots(archive.fat)), p, size)
      ensures size > old(id.storedSize) ==>
        archive.store == InsertAt(old(archive.store), old(End(id.Place())), size - old(id.storedSize))
      ensures size < old(id.storedSize) ==>
        archive.store == DeleteAt(old(archive.store), old(DataStart(id.Place())) + size, old(id.storedSize) - size)
      ensures |moved| == |archive.fat|
      ensures archive.hooks == old(archive.hooks) + [UpdateFileSize(id, size, size - old(id.storedSize))]
        + OffsetCalls(archive.fat, moved, size - old(id.storedSize))
      ensures forall o :: o in old(archive.openFiles) && o.entry == id && o.sub.live ==> o.sub.size == size
      ensures forall o :: o in old(archive.openFiles) && !(o.entry == id && o.sub.live) ==> o.sub.size == old(o.sub.size)
      ensures forall o :: o in archive.openFiles ==> o in old(archive.openFiles)
      ensures forall o :: o in old(archive.openFiles) && o.sub.live ==> o in archive.openFiles
      ensures old(archive.Tiled()) && old(archive.Tracking()) ==> archive.Tracking()
      ensures old(archive.Tiled()) ==> archive.Tiled()
    {
      var newReal := if id.compressed then id.realSize else size;
      p, moved := archive.Resize(id, size, newReal);
      var ok := SeekP(size);
      if !ok {
        return Failure(WriteError), p, moved;
      }
      r := Success(());
    }

    /** output_archfile::setRealSize: resize with the stored size unchanged, which records
        the real size and moves nothing. */
    method SetRealSize(newReal: nat)
      requires archive.Valid() && id.valid && id in archive.fat
      requires 0 <= DataStart(id.Place()) && End(id.Place()) <= |archive.store|
      modifies archive`hooks, archive`openFiles, archive`store, id`storedSize, id`realSize
      modifies archive.FatSet()`offset, archive.FatSet()`index, archive.Subs()`start, archive.Subs()`size
      ensures archive.Valid() && id.realSize == newReal && id.storedSize == old(id.storedSize)
      ensures Slots(archive.fat) == old(Slots(archive.fat))
      ensures archive.store == old(archive.store) && archive.hooks == old(archive.hooks)
      ensures archive.openFiles == old(archive.openFiles)
      ensures forall o :: o in archive.openFiles ==> o.sub.start == old(o.sub.start) && o.sub.size == old(o.sub.size)
      ensures old(archive.Tracking()) ==> archive.Tracking()
    {
      ghost var vs := Slots(archive.fat);
      ghost var p, moved := archive.Resize(id, id.storedSize, newReal);
      assert vs[p] == old(id.Place());
      forall k | 0 <= k < |archive.fat|
        ensures archive.fat[k].offset == old(archive.fat[k].offset) && archive.fat[k].lenHeader == old(archive.fat[k].lenHeader)
        ensures archive.fat[k].storedSize == old(archive.fat[k].storedSize)
      {
        assert Slots(archive.fat)[k] == vs[k];
      }
    }

    /** output_archfile::flush: commit the archive only when this stream is its sole owner
        (nobody else could flush it); otherwise leave that to the other owners. */
    method Flush(soleOwner: bool)
      modifies archive`committed
      ensures soleOwner ==> archive.committed == archive.store
      ensures !soleOwner ==> archive.committed == old(archive.committed)
    {
      if soleOwner {
        archive.Flush();
      }
    }
  }

  /** The window a stream recomputes from its entry is the window the archive keeps for
      every live registration of that entry, as long as the table tracks its entries. */
  lemma WindowAgrees(f: ArchFile, o: OpenFile)
    requires f.archive.Tracking() && o in f.archive.openFiles
    requires o.entry == f.id && f.id.valid && o.sub.live
    ensures f.SubStart() == Success(o.sub.start) && f.SubSize() == Success(o.sub.size)
  {
  }

  /** In a tiled archive, the window of a stream on an entry of the vector lies inside the
      archive bytes. */
  lemma WindowInStore(f: ArchFile)
    requires f.archive.Tiled() && f.id in f.archive.fat
    ensures f.SubStart().Success? && f.SubSize().Success?
    ensures 0 <= f.SubStart().value && f.SubStart().value + f.SubSize().value <= |f.archive.store|
  {
    var a := f.archive;
    var k :| 0 <= k < |a.fat| && a.fat[k] == f.id;
    assert Slots(a.fat)[k] == f.id.Place();
  }
}
