/** The placement arithmetic of the FAT shift engine, on values.

    A Slot is the part of a FAT entry that the engine computes with: its on-disk order
    (iIndex), the offset of its block in the archive (iOffset), the length of the embedded
    header in front of its data (lenHeader) and the number of data bytes stored (storedSize).
    A layout is the archive's FAT vector seen as a sequence of slots. */
module Layout {

  datatype Slot = Slot(index: int, offset: int, lenHeader: nat, storedSize: nat)

  /** First byte of an entry's data: the window a stream on the entry starts at. */
  function DataStart(v: Slot): int { v.offset + v.lenHeader }

  /** One past the last byte of an entry's block. */
  function End(v: Slot): int { v.offset + v.lenHeader + v.storedSize }

  /** The test entryInRange applies to an entry other than a valid skip entry: the entry
      starts at or after offStart, unless it is a zero-length entry at the skip entry's
      offset that comes earlier in index order. */
  predicate MovesPast(v: Slot, offStart: int, skip: Slot)
  {
    v.offset >= offStart && !(v.storedSize == 0 && v.offset == skip.offset && v.index < skip.index)
  }

  /** Which entries of a vector that does not hold the (valid) skip entry pass the test. */
  function PassFlags(vs: seq<Slot>, offStart: int, skip: Slot): (r: seq<bool>)
    ensures |r| == |vs|
    ensures forall k {:trigger r[k]} :: 0 <= k < |vs| ==> r[k] == MovesPast(vs[k], offStart, skip)
  {
    seq(|vs|, k requires 0 <= k < |vs| => MovesPast(vs[k], offStart, skip))
  }

  /** An entry moved by deltaOffset bytes and renumbered by deltaIndex. */
  function Bumped(v: Slot, deltaOffset: int, deltaIndex: int): Slot
  {
    v.(offset := v.offset + deltaOffset, index := v.index + deltaIndex)
  }

  /** What shiftFiles does to one entry when the skip entry is valid and is not this entry. */
  function Shifted(v: Slot, offStart: int, deltaOffset: int, deltaIndex: int, skip: Slot): Slot
  {
    if MovesPast(v, offStart, skip) then Bumped(v, deltaOffset, deltaIndex) else v
  }

  /** shiftFiles over a whole vector that does not contain the (valid) skip entry. */
  function ShiftSlots(vs: seq<Slot>, offStart: int, deltaOffset: int, deltaIndex: int, skip: Slot): (r: seq<Slot>)
    ensures |r| == |vs|
    ensures forall k {:trigger r[k]} :: 0 <= k < |vs| ==> r[k] == Shifted(vs[k], offStart, deltaOffset, deltaIndex, skip)
  {
    seq(|vs|, k requires 0 <= k < |vs| => Shifted(vs[k], offStart, deltaOffset, deltaIndex, skip))
  }

  /** The entries flagged in `moved` bumped, the others unchanged. */
  function BumpWhere(vs: seq<Slot>, moved: seq<bool>, deltaOffset: int, deltaIndex: int): (r: seq<Slot>)
    requires |moved| == |vs|
    ensures |r| == |vs|
    ensures forall k {:trigger r[k]} :: 0 <= k < |vs| ==> r[k] == if moved[k] then Bumped(vs[k], deltaOffset, deltaIndex) else vs[k]
  {
    seq(|vs|, k requires 0 <= k < |vs| => if moved[k] then Bumped(vs[k], deltaOffset, deltaIndex) else vs[k])
  }

  /** The layout invariant: the vector is held in on-disk order and its indices are dense
      (entry k has index k), every block lies between the first-file offset and the end of
      the archive, and blocks do not overlap (a later entry starts at or after the end of
      every earlier one; deliberate gaps are allowed). */
  predicate Tiled(vs: seq<Slot>, offFirst: int, storeLen: int)
  {
    && 0 <= offFirst <= storeLen
    && (forall k :: 0 <= k < |vs| ==> vs[k].index == k && offFirst <= vs[k].offset && End(vs[k]) <= storeLen)
    && (forall j, k :: 0 <= j < k < |vs| ==> End(vs[j]) <= vs[k].offset)
  }

  // ---------------------------------------------------------------------------------------
  // The three structural edits, as insert, remove and resize perform them.

  /** The new entry of an insert before the entry at position p: it takes that entry's
      offset and index (fatarchive.cpp:163-164) and the header length the adapter chose. */
  function InsertedBefore(vs: seq<Slot>, p: nat, lenHeader: nat, size: nat): Slot
    requires p < |vs|
  {
    Slot(vs[p].index, vs[p].offset, lenHeader, size)
  }

  /** Insert before position p: shift everything from the new entry's data start on by its
      size and one index, then splice the new entry in just before the old entry p. */
  function InsertSlots(vs: seq<Slot>, p: nat, lenHeader: nat, size: nat): seq<Slot>
    requires p < |vs|
  {
    var n := InsertedBefore(vs, p, lenHeader, size);
    var s := ShiftSlots(vs, DataStart(n), size, 1, n);
    s[..p] + [n] + s[p..]
  }

  /** The new entry of an append: after the last entry of the vector, or at the first-file
      offset with index 0 when the archive is empty (fatarchive.cpp:168-178). */
  function Appended(vs: seq<Slot>, offFirst: int, lenHeader: nat, size: nat): Slot
  {
    if |vs| > 0 then Slot(vs[|vs| - 1].index + 1, End(vs[|vs| - 1]), lenHeader, size)
    else Slot(0, offFirst, lenHeader, size)
  }

  function AppendSlots(vs: seq<Slot>, offFirst: int, lenHeader: nat, size: nat): seq<Slot>
  {
    vs + [Appended(vs, offFirst, lenHeader, size)]
  }

  /** Remove the entry at position p: take it out of the vector, then move everything from
      its offset on back by its block length and down one index. */
  function RemoveSlots(vs: seq<Slot>, p: nat): seq<Slot>
    requires p < |vs|
  {
    var d := vs[p];
    ShiftSlots(vs[..p] + vs[p + 1..], d.offset, -(d.storedSize + d.lenHeader), -1, d)
  }

  /** Where resize edits the bytes: at the old end of the data when growing, at the new end
      when shrinking (fatarchive.cpp:283-292). */
  function ResizeStart(v: Slot, newSize: nat): int
  {
    if newSize > v.storedSize then End(v) else DataStart(v) + newSize
  }

  /** Resize the entry at position p: it keeps offset and index, everything from the edit
      point on moves by the size difference, and no index changes. */
  function ResizeSlots(vs: seq<Slot>, p: nat, newSize: nat): seq<Slot>
    requires p < |vs|
  {
    var r := vs[p];
    var delta := newSize - r.storedSize;
    if delta == 0 then vs
    else
      var s := ShiftSlots(vs, ResizeStart(r, newSize), delta, 0, r);
      s[..p] + [r.(storedSize := newSize)] + s[p + 1..]
  }

  /** A layout whose every entry is the shifted old one is the shifted layout. */
  lemma EqualsShiftSlots(ws: seq<Slot>, vs: seq<Slot>, offStart: int, deltaOffset: int, deltaIndex: int, skip: Slot)
    requires |ws| == |vs|
    requires forall k :: 0 <= k < |vs| ==> ws[k] == Shifted(vs[k], offStart, deltaOffset, deltaIndex, skip)
    ensures ws == ShiftSlots(vs, offStart, deltaOffset, deltaIndex, skip)
  {
  }

  /** An insert is the shifted layout with the new entry spliced in. */
  lemma InsertIsSplice(vs: seq<Slot>, p: nat, lenHeader: nat, size: nat, ws: seq<Slot>)
    requires p < |vs|
    requires ws == ShiftSlots(vs, DataStart(InsertedBefore(vs, p, lenHeader, size)), size, 1, InsertedBefore(vs, p, lenHeader, size))
    ensures InsertSlots(vs, p, lenHeader, size) == ws[..p] + [InsertedBefore(vs, p, lenHeader, size)] + ws[p..]
  {
  }

  /** A remove is the shift of the layout with the entry erased. */
  lemma RemoveIsShiftOfErased(vs: seq<Slot>, p: nat, us: seq<Slot>)
    requires p < |vs| && us == vs[..p] + vs[p + 1..]
    ensures RemoveSlots(vs, p) == ShiftSlots(us, vs[p].offset, -(vs[p].storedSize + vs[p].lenHeader), -1, vs[p])
  {
  }

  /** A shift is a bump of exactly the entries that pass the in-range test. */
  lemma ShiftIsBumpWhere(vs: seq<Slot>, moved: seq<bool>, offStart: int, deltaOffset: int, deltaIndex: int, skip: Slot)
    requires moved == PassFlags(vs, offStart, skip)
    ensures ShiftSlots(vs, offStart, deltaOffset, deltaIndex, skip) == BumpWhere(vs, moved, deltaOffset, deltaIndex)
  {
  }

  /** The window pass of a resize finds the same entries in range whether the resized
      entry already carries its new stored size or not. */
  lemma ResizeFlagsIgnoreSize(vs: seq<Slot>, start: int, p: nat, newSize: nat)
    requires p < |vs|
    ensures var us := vs[p := vs[p].(storedSize := newSize)];
      PassFlags(us, start, us[p])[p := false] == PassFlags(vs, start, vs[p])[p := false]
  {
    var us := vs[p := vs[p].(storedSize := newSize)];
    var after := PassFlags(us, start, us[p])[p := false];
    var before := PassFlags(vs, start, vs[p])[p := false];
    forall k | 0 <= k < |vs|
      ensures after[k] == before[k]
    {
      if k != p {
        assert us[k] == vs[k];
      }
    }
  }

  /** A resize is a bump, by the size difference and no index, of exactly the entries other
      than the resized one that pass the in-range test, applied once the resized entry
      holds its new size. */
  lemma ResizeIsBumpWhere(vs: seq<Slot>, p: nat, newSize: nat, moved: seq<bool>)
    requires p < |vs| && newSize != vs[p].storedSize
    requires moved == PassFlags(vs, ResizeStart(vs[p], newSize), vs[p])[p := false]
    ensures ResizeSlots(vs, p, newSize)
         == BumpWhere(vs[p := vs[p].(storedSize := newSize)], moved, newSize - vs[p].storedSize, 0)
  {
    var r := vs[p];
    var delta := newSize - r.storedSize;
    var s := ShiftSlots(vs, ResizeStart(r, newSize), delta, 0, r);
    var t := s[..p] + [r.(storedSize := newSize)] + s[p + 1..];
    var b := BumpWhere(vs[p := r.(storedSize := newSize)], moved, delta, 0);
    forall k | 0 <= k < |t|
      ensures t[k] == b[k]
    {
      if k != p {
        assert t[k] == s[k];
      }
    }
  }

  // ---------------------------------------------------------------------------------------
  // Who moves.

  /** In a tiled layout, with the entry at position p as the skip entry and the shift
      starting anywhere inside its block, the entries that move are exactly the ones after
      p: a zero-length entry that shares p's offset but precedes it stays put. */
  lemma {:induction false} InRangeIsSuffix(vs: seq<Slot>, offFirst: int, storeLen: int, p: nat, offStart: int)
    requires Tiled(vs, offFirst, storeLen)
    requires p < |vs|
    requires vs[p].offset <= offStart <= End(vs[p])
    ensures forall k :: 0 <= k < |vs| && k != p ==> (MovesPast(vs[k], offStart, vs[p]) <==> p < k)
  {
    forall k | 0 <= k < |vs| && k != p
      ensures MovesPast(vs[k], offStart, vs[p]) <==> p < k
    {
      if k < p {
        assert End(vs[k]) <= vs[p].offset;
      } else {
        assert End(vs[p]) <= vs[k].offset;
      }
    }
  }

  /** Inserting before position p moves exactly the entries from p on, including p itself;
      a zero-length entry at the same offset with a lower index is left before the new one. */
  lemma {:induction false} InsertMovesFromPosition(vs: seq<Slot>, offFirst: int, storeLen: int, p: nat, size: nat)
    requires Tiled(vs, offFirst, storeLen)
    requires p < |vs|
    ensures var n := InsertedBefore(vs, p, 0, size);
      forall k :: 0 <= k < |vs| ==> (MovesPast(vs[k], DataStart(n), n) <==> p <= k)
  {
    var n := InsertedBefore(vs, p, 0, size);
    forall k | 0 <= k < |vs|
      ensures MovesPast(vs[k], DataStart(n), n) <==> p <= k
    {
      if k < p {
        assert End(vs[k]) <= vs[p].offset;
      } else if k > p {
        assert End(vs[p]) <= vs[k].offset;
      }
    }
  }

  /** Removing the entry at position p moves exactly the entries after it. */
  lemma RemoveMovesAfterPosition(vs: seq<Slot>, offFirst: int, storeLen: int, p: nat)
    requires Tiled(vs, offFirst, storeLen)
    requires p < |vs|
    ensures forall k :: 0 <= k < |vs| && k != p ==> (MovesPast(vs[k], vs[p].offset, vs[p]) <==> p < k)
  {
    InRangeIsSuffix(vs, offFirst, storeLen, p, vs[p].offset);
  }

  /** Resizing the entry at position p moves exactly the entries after it. */
  lemma ResizeMovesAfterPosition(vs: seq<Slot>, offFirst: int, storeLen: int, p: nat, newSize: nat)
    requires Tiled(vs, offFirst, storeLen)
    requires p < |vs|
    ensures forall k :: 0 <= k < |vs| && k != p ==> (MovesPast(vs[k], ResizeStart(vs[p], newSize), vs[p]) <==> p < k)
  {
    InRangeIsSuffix(vs, offFirst, storeLen, p, ResizeStart(vs[p], newSize));
  }

  // ---------------------------------------------------------------------------------------
  // The layout invariant is kept.

  /** The vector after an insert before position p, entry by entry: the earlier entries
      unchanged, the new entry at p, every later one moved by the size and one index. */
  lemma InsertShape(vs: seq<Slot>, offFirst: int, storeLen: int, p: nat, size: nat)
    requires Tiled(vs, offFirst, storeLen)
    requires p < |vs|
    ensures var t := InsertSlots(vs, p, 0, size);
      && |t| == |vs| + 1
      && (forall k :: 0 <= k < p ==> t[k] == vs[k])
      && t[p] == InsertedBefore(vs, p, 0, size)
      && (forall k :: p < k < |t| ==> t[k] == Bumped(vs[k - 1], size, 1))
  {
    var n := InsertedBefore(vs, p, 0, size);
    var s := ShiftSlots(vs, DataStart(n), size, 1, n);
    InsertMovesFromPosition(vs, offFirst, storeLen, p, size);
    var t := s[..p] + [n] + s[p..];
    assert forall k :: p < k < |t| ==> t[k] == s[k - 1];
  }

  /** Inserting a headerless entry before position p keeps the layout tiled in an archive
      that has grown by the new entry's size. */
  lemma {:induction false} InsertKeepsTiled(vs: seq<Slot>, offFirst: int, storeLen: int, p: nat, size: nat)
    requires Tiled(vs, offFirst, storeLen)
    requires p < |vs|
    ensures Tiled(InsertSlots(vs, p, 0, size), offFirst, storeLen + size)
  {
    var t := InsertSlots(vs, p, 0, size);
    InsertShape(vs, offFirst, storeLen, p, size);
    forall k | 0 <= k < |t|
      ensures t[k].index == k && offFirst <= t[k].offset && End(t[k]) <= storeLen + size
    {
      if k == p {
        assert End(vs[p]) <= storeLen;
      }
    }
    forall j, k | 0 <= j < k < |t|
      ensures End(t[j]) <= t[k].offset
    {
      if k < p {
        assert End(vs[j]) <= vs[k].offset;
      } else if j < p && k == p {
        assert End(vs[j]) <= vs[p].offset;
      } else if j < p {
        assert End(vs[j]) <= vs[k - 1].offset;
      } else if j == p {
        if k - 1 > p {
          assert End(vs[p]) <= vs[k - 1].offset;
        }
      } else {
        assert End(vs[j - 1]) <= vs[k - 1].offset;
      }
    }
  }

  /** Appending keeps the layout tiled. */
  lemma AppendKeepsTiled(vs: seq<Slot>, offFirst: int, storeLen: int, size: nat)
    requires Tiled(vs, offFirst, storeLen)
    ensures Tiled(AppendSlots(vs, offFirst, 0, size), offFirst, storeLen + size)
  {
    var t := AppendSlots(vs, offFirst, 0, size);
    forall j, k | 0 <= j < k < |t|
      ensures End(t[j]) <= t[k].offset
    {
      if k == |vs| && j < |vs| - 1 {
        assert End(vs[j]) <= vs[|vs| - 1].offset;
      }
    }
  }

  /** Removing an entry keeps the layout tiled in an archive that has shrunk by the
      entry's block length. */
  lemma {:induction false} RemoveKeepsTiled(vs: seq<Slot>, offFirst: int, storeLen: int, p: nat)
    requires Tiled(vs, offFirst, storeLen)
    requires p < |vs|
    ensures Tiled(RemoveSlots(vs, p), offFirst, storeLen - (vs[p].storedSize + vs[p].lenHeader))
  {
    var d := vs[p];
    var len := d.storedSize + d.lenHeader;
    var rest := vs[..p] + vs[p + 1..];
    var t := RemoveSlots(vs, p);
    RemoveMovesAfterPosition(vs, offFirst, storeLen, p);
    assert forall k :: 0 <= k < p ==> rest[k] == vs[k];
    assert forall k :: p <= k < |rest| ==> rest[k] == vs[k + 1];
    assert forall k :: 0 <= k < p ==> t[k] == vs[k];
    assert forall k :: p <= k < |t| ==> t[k] == Bumped(vs[k + 1], -len, -1);
    forall k | 0 <= k < |t|
      ensures t[k].index == k && offFirst <= t[k].offset && End(t[k]) <= storeLen - len
    {
      if k < p {
        assert End(vs[k]) <= d.offset;
      } else {
        assert End(d) <= vs[k + 1].offset;
      }
    }
    forall j, k | 0 <= j < k < |t|
      ensures End(t[j]) <= t[k].offset
    {
      if k < p {
      } else if j < p {
        assert End(vs[j]) <= d.offset;
        assert End(d) <= vs[k + 1].offset;
      } else {
        assert End(vs[j + 1]) <= vs[k + 1].offset;
      }
    }
  }

  /** The vector after a resize of position p that changes the size, entry by entry. */
  lemma ResizeShape(vs: seq<Slot>, offFirst: int, storeLen: int, p: nat, newSize: nat)
    requires Tiled(vs, offFirst, storeLen)
    requires p < |vs|
    requires newSize != vs[p].storedSize
    ensures var t := ResizeSlots(vs, p, newSize);
      && |t| == |vs|
      && (forall k :: 0 <= k < p ==> t[k] == vs[k])
      && t[p] == vs[p].(storedSize := newSize)
      && (forall k :: p < k < |t| ==> t[k] == Bumped(vs[k], newSize - vs[p].storedSize, 0))
  {
    ResizeMovesAfterPosition(vs, offFirst, storeLen, p, newSize);
  }

  /** Resizing an entry keeps the layout tiled in an archive whose length has changed by
      the size difference. */
  lemma {:induction false} ResizeKeepsTiled(vs: seq<Slot>, offFirst: int, storeLen: int, p: nat, newSize: nat)
    requires Tiled(vs, offFirst, storeLen)
    requires p < |vs|
    ensures Tiled(ResizeSlots(vs, p, newSize), offFirst, storeLen + (newSize - vs[p].storedSize))
  {
    var r := vs[p];
    var delta := newSize - r.storedSize;
    if delta != 0 {
      var t := ResizeSlots(vs, p, newSize);
      ResizeShape(vs, offFirst, storeLen, p, newSize);
      forall k | 0 <= k < |t|
        ensures t[k].index == k && offFirst <= t[k].offset && End(t[k]) <= storeLen + delta
      {
        if k > p {
          assert End(r) <= vs[k].offset;
        }
      }
      forall j, k | 0 <= j < k < |t|
        ensures End(t[j]) <= t[k].offset
      {
        if j < p && k == p {
          assert End(vs[j]) <= r.offset;
        } else if j < p && k > p {
          assert End(vs[j]) <= vs[k].offset;
        } else if j == p {
          assert End(r) <= vs[k].offset;
        } else {
          assert End(vs[j]) <= vs[k].offset;
        }
      }
    }
  }

  // ---------------------------------------------------------------------------------------
  // Open windows are relocated by the same rule, evaluated after the entries have moved.

  /** After an insert, the entries that the window pass finds in range (against the new
      entry as skip) are exactly the ones that moved: every entry after the new one. */
  lemma InsertRelocatesMoved(vs: seq<Slot>, offFirst: int, storeLen: int, p: nat, size: nat)
    requires Tiled(vs, offFirst, storeLen)
    requires p < |vs|
    ensures var n := InsertedBefore(vs, p, 0, size);
      var t := InsertSlots(vs, p, 0, size);
      forall k :: 0 <= k < |t| && k != p ==> (MovesPast(t[k], DataStart(n), n) <==> p < k)
  {
    InsertKeepsTiled(vs, offFirst, storeLen, p, size);
    InRangeIsSuffix(InsertSlots(vs, p, 0, size), offFirst, storeLen + size, p, vs[p].offset);
  }

  /** After a remove, the entries that the window pass finds in range (against the removed
      entry as skip) are exactly the ones that moved: every entry from position p on. */
  lemma {:induction false} RemoveRelocatesMoved(vs: seq<Slot>, offFirst: int, storeLen: int, p: nat)
    requires Tiled(vs, offFirst, storeLen)
    requires p < |vs|
    ensures var t := RemoveSlots(vs, p);
      forall k :: 0 <= k < |t| ==> (MovesPast(t[k], vs[p].offset, vs[p]) <==> p <= k)
  {
    var d := vs[p];
    var len := d.storedSize + d.lenHeader;
    var rest := vs[..p] + vs[p + 1..];
    var t := RemoveSlots(vs, p);
    RemoveMovesAfterPosition(vs, offFirst, storeLen, p);
    forall k | 0 <= k < |t|
      ensures MovesPast(t[k], d.offset, d) <==> p <= k
    {
      if k < p {
        assert rest[k] == vs[k];
      } else {
        assert rest[k] == vs[k + 1];
        assert End(d) <= vs[k + 1].offset;
      }
    }
  }

  /** After a resize, the entries that the window pass finds in range (against the resized
      entry, now of its new size) are exactly the ones that moved: every entry after it. */
  lemma ResizeRelocatesMoved(vs: seq<Slot>, offFirst: int, storeLen: int, p: nat, newSize: nat)
    requires Tiled(vs, offFirst, storeLen)
    requires p < |vs|
    requires newSize != vs[p].storedSize
    ensures var t := ResizeSlots(vs, p, newSize);
      forall k :: 0 <= k < |t| && k != p ==> (MovesPast(t[k], ResizeStart(vs[p], newSize), t[p]) <==> p < k)
  {
    var t := ResizeSlots(vs, p, newSize);
    ResizeKeepsTiled(vs, offFirst, storeLen, p, newSize);
    assert t[p] == vs[p].(storedSize := newSize);
    InRangeIsSuffix(t, offFirst, storeLen + (newSize - vs[p].storedSize), p, ResizeStart(vs[p], newSize));
  }

  /** A forward shift (no offset or index goes down) whose start is at or after the skip
      entry's offset does not change who passes the test: the window pass, run on the moved
      entries, finds in range exactly the entries the entry pass moved. This holds for any
      vector, tiled or not. */
  lemma ForwardShiftKeepsFlags(vs: seq<Slot>, offStart: int, deltaOffset: nat, deltaIndex: nat, skip: Slot)
    requires skip.offset <= offStart
    ensures PassFlags(ShiftSlots(vs, offStart, deltaOffset, deltaIndex, skip), offStart, skip) == PassFlags(vs, offStart, skip)
  {
    var t := ShiftSlots(vs, offStart, deltaOffset, deltaIndex, skip);
    forall k | 0 <= k < |vs|
      ensures MovesPast(t[k], offStart, skip) == MovesPast(vs[k], offStart, skip)
    {
      if MovesPast(vs[k], offStart, skip) && deltaOffset > 0 {
        assert t[k].offset > skip.offset;
      }
    }
  }

  /** In a tiled layout the pass of a remove, run on the moved entries, finds in range
      exactly the entries the entry pass moved. */
  lemma RemoveKeepsFlags(vs: seq<Slot>, offFirst: int, storeLen: int, p: nat)
    requires Tiled(vs, offFirst, storeLen)
    requires p < |vs|
    ensures PassFlags(RemoveSlots(vs, p), vs[p].offset, vs[p]) == PassFlags(vs[..p] + vs[p + 1..], vs[p].offset, vs[p])
  {
    var us := vs[..p] + vs[p + 1..];
    RemoveRelocatesMoved(vs, offFirst, storeLen, p);
    RemoveMovesAfterPosition(vs, offFirst, storeLen, p);
    forall k | 0 <= k < |us|
      ensures MovesPast(RemoveSlots(vs, p)[k], vs[p].offset, vs[p]) == MovesPast(us[k], vs[p].offset, vs[p])
    {
      if k < p {
        assert us[k] == vs[k];
      } else {
        assert us[k] == vs[k + 1];
      }
    }
  }

  /** In a tiled layout the pass of a resize, run on the moved entries against the resized
      entry, finds in range exactly the entries the entry pass moved. */
  lemma ResizeKeepsFlags(vs: seq<Slot>, offFirst: int, storeLen: int, p: nat, newSize: nat)
    requires Tiled(vs, offFirst, storeLen)
    requires p < |vs| && newSize != vs[p].storedSize
    ensures var t := ResizeSlots(vs, p, newSize);
      var start := ResizeStart(vs[p], newSize);
      PassFlags(t, start, t[p])[p := false] == PassFlags(vs, start, vs[p])[p := false]
  {
    ResizeRelocatesMoved(vs, offFirst, storeLen, p, newSize);
    ResizeMovesAfterPosition(vs, offFirst, storeLen, p, newSize);
  }

  // ---------------------------------------------------------------------------------------
  // Round trips.

  /** Removing the entry an insert spliced in at p leaves the inserted layout's shift to be
      undone by the remove's shift. */
  lemma RemoveAfterInsert(vs: seq<Slot>, p: nat, size: nat)
    requires p < |vs|
    ensures var n := InsertedBefore(vs, p, 0, size);
      RemoveSlots(InsertSlots(vs, p, 0, size), p)
        == ShiftSlots(ShiftSlots(vs, n.offset, size, 1, n), n.offset, -(size as int), -1, n)
  {
    var n := InsertedBefore(vs, p, 0, size);
    var s := ShiftSlots(vs, DataStart(n), size, 1, n);
    var t := s[..p] + [n] + s[p..];
    assert t[..p] + t[p + 1..] == s by {
      assert t[..p] == s[..p];
      assert t[p + 1..] == s[p..];
    }
  }

  /** In a tiled layout, shifting forward the entries from p on (against the new entry at
      p's place) and then back again gives back the layout. */
  lemma {:induction false} ShiftBackUndoesShift(vs: seq<Slot>, offFirst: int, storeLen: int, p: nat, size: nat)
    requires Tiled(vs, offFirst, storeLen)
    requires p < |vs|
    ensures var n := InsertedBefore(vs, p, 0, size);
      ShiftSlots(ShiftSlots(vs, n.offset, size, 1, n), n.offset, -(size as int), -1, n) == vs
  {
    var n := InsertedBefore(vs, p, 0, size);
    var s := ShiftSlots(vs, n.offset, size, 1, n);
    var u := ShiftSlots(s, n.offset, -(size as int), -1, n);
    InsertMovesFromPosition(vs, offFirst, storeLen, p, size);
    forall k | 0 <= k < |vs|
      ensures u[k] == vs[k]
    {
      if p < k {
        assert End(vs[p]) <= vs[k].offset;
      }
    }
  }

  /** Removing an entry just inserted before position p restores the previous layout. */
  lemma RemoveUndoesInsert(vs: seq<Slot>, offFirst: int, storeLen: int, p: nat, size: nat)
    requires Tiled(vs, offFirst, storeLen)
    requires p < |vs|
    ensures RemoveSlots(InsertSlots(vs, p, 0, size), p) == vs
  {
    RemoveAfterInsert(vs, p, size);
    ShiftBackUndoesShift(vs, offFirst, storeLen, p, size);
  }

  /** Removing an entry just appended restores the previous layout. */
  lemma {:induction false} RemoveUndoesAppend(vs: seq<Slot>, offFirst: int, storeLen: int, size: nat)
    requires Tiled(vs, offFirst, storeLen)
    ensures RemoveSlots(AppendSlots(vs, offFirst, 0, size), |vs|) == vs
  {
    var t := AppendSlots(vs, offFirst, 0, size);
    var n := t[|vs|];
    assert t[..|vs|] + t[|vs| + 1..] == vs;
    var u := RemoveSlots(t, |vs|);
    forall k | 0 <= k < |vs|
      ensures u[k] == vs[k]
    {
      if k < |vs| - 1 {
        assert End(vs[k]) <= vs[|vs| - 1].offset;
      }
    }
  }

  // ---------------------------------------------------------------------------------------
  // The read-only searches.

  /** The position of the first entry whose data starts at or after `start`, or |vs| when
      there is none. */
  function FirstFrom(vs: seq<Slot>, start: int): (r: nat)
    ensures r <= |vs|
    ensures forall k :: 0 <= k < r ==> DataStart(vs[k]) < start
    ensures r < |vs| ==> DataStart(vs[r]) >= start
  {
    if vs == [] then 0
    else if DataStart(vs[0]) >= start then 0
    else 1 + FirstFrom(vs[1..], start)
  }

  /** A position whose entry is the first to start at or after `start` is FirstFrom. */
  lemma FirstFromIs(vs: seq<Slot>, start: int, i: nat)
    requires i <= |vs| && (i < |vs| ==> DataStart(vs[i]) >= start)
    requires forall k :: 0 <= k < i ==> DataStart(vs[k]) < start
    ensures FirstFrom(vs, start) == i
  {
  }

  /** Looking up the window of the entry at p in a tiled layout finds p itself or an
      earlier entry whose data starts at the same byte; such an earlier entry is empty and
      p then has no header. */
  lemma FirstFromOwner(vs: seq<Slot>, offFirst: int, storeLen: int, p: nat)
    requires Tiled(vs, offFirst, storeLen) && p < |vs|
    ensures var q := FirstFrom(vs, DataStart(vs[p]));
      && q <= p && DataStart(vs[q]) == DataStart(vs[p])
      && (q < p ==> vs[q].storedSize == 0 && vs[p].lenHeader == 0)
  {
    var q := FirstFrom(vs, DataStart(vs[p]));
    if q < p {
      assert End(vs[q]) <= vs[p].offset;
    }
  }

  /** An empty entry in front of another at the same offset takes over the follower's
      window in the lookup. */
  lemma FirstFromEmptyNeighbour()
    ensures FirstFrom([Slot(0, 10, 0, 0), Slot(1, 10, 0, 5)], DataStart(Slot(1, 10, 0, 5))) == 0
  {
  }

  /** The position of the first entry with the given on-disk index, or |vs| when there is
      none. */
  function PositionOf(vs: seq<Slot>, index: int): (r: nat)
    ensures r <= |vs|
    ensures forall k :: 0 <= k < r ==> vs[k].index != index
    ensures r < |vs| ==> vs[r].index == index
  {
    if vs == [] then 0
    else if vs[0].index == index then 0
    else 1 + PositionOf(vs[1..], index)
  }

  /** A position whose entry is the first with the index is PositionOf. */
  lemma PositionOfIs(vs: seq<Slot>, index: int, i: nat)
    requires i <= |vs| && (i < |vs| ==> vs[i].index == index)
    requires forall k :: 0 <= k < i ==> vs[k].index != index
    ensures PositionOf(vs, index) == i
  {
  }

  /** In a tiled layout the entry with index i sits at position i, and an index outside
      0..|vs|-1 is found nowhere. */
  lemma PositionOfTiled(vs: seq<Slot>, offFirst: int, storeLen: int, i: int)
    requires Tiled(vs, offFirst, storeLen)
    ensures PositionOf(vs, i) == if 0 <= i < |vs| then i else |vs|
  {
    if 0 <= i < |vs| {
      PositionOfIs(vs, i, i);
    } else {
      PositionOfIs(vs, i, |vs|);
    }
  }

  // ---------------------------------------------------------------------------------------
  // The scenarios of the GLB (Galactix) format tests, on the offsets after the format has
  // grown its table: ONE.DAT and TWO.DAT of 15 bytes each, one after the other.

  /** Inserting THREE.DAT (17 bytes) before TWO.DAT: THREE takes TWO's place and index, TWO
      moves from 0x7f to 0x90 and becomes index 2 (content_132). */
  lemma GalactixInsertMid()
    ensures InsertSlots([Slot(0, 0x70, 0, 15), Slot(1, 0x7f, 0, 15)], 1, 0, 17)
         == [Slot(0, 0x70, 0, 15), Slot(1, 0x7f, 0, 17), Slot(2, 0x90, 0, 15)]
  {
  }

  /** Enlarging ONE.DAT to 20 bytes moves TWO.DAT from 0x63 to 0x68 and keeps its index
      (content_1l2). */
  lemma GalactixEnlarge()
    ensures ResizeSlots([Slot(0, 0x54, 0, 15), Slot(1, 0x63, 0, 15)], 0, 20)
         == [Slot(0, 0x54, 0, 20), Slot(1, 0x68, 0, 15)]
  {
  }

  /** Shrinking ONE.DAT to 10 bytes moves TWO.DAT from 0x63 to 0x5e (content_1s2). */
  lemma GalactixShrink()
    ensures ResizeSlots([Slot(0, 0x54, 0, 15), Slot(1, 0x63, 0, 15)], 0, 10)
         == [Slot(0, 0x54, 0, 10), Slot(1, 0x5e, 0, 15)]
  {
  }

  /** Two empty entries A (index 0) and B (index 1) at the same offset: inserting before B
      leaves A where it is and moves B behind the new entry. */
  lemma ZeroLengthTieBreak()
    ensures InsertSlots([Slot(0, 40, 0, 0), Slot(1, 40, 0, 0)], 1, 0, 5)
         == [Slot(0, 40, 0, 0), Slot(1, 40, 0, 5), Slot(2, 45, 0, 0)]
  {
  }
}
