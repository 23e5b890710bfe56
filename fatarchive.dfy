/** The FAT archive engine (FATArchive): the vector of FAT entries, the table of open
    substreams, the archive bytes, and the shift engine that keeps all three consistent
    while files are inserted, removed and resized. The format-specific work (rewriting
    the on-disk FAT) is done by adapter hooks; the model does not run them, it records
    every hook call, with what the hook can see at that moment, in a ghost log. */
module FatArchiveModel {
  import opened ByteStore
  import opened Layout

  datatype ArchiveError =
    | NameRejected   // the adapter's preInsertFile threw (e.g. a filename too long)
    | ClosedFile     // a stream was used after its entry was removed
    | WriteError     // the seek to the new end of a truncated stream failed
    | NotSupported   // an operation the archive's streams refuse outright

  datatype Result<T> = Success(value: T) | Failure(error: ArchiveError)

  /** A FAT entry (FATArchive::FATEntry together with the FileEntry fields the engine
      uses). Entries are shared objects: the vector, the open-file table and callers all
      hold the same one. */
  class FatEntry {
    var index: int         // iIndex: position in on-disk order
    var offset: int        // iOffset: where the entry's block starts in the archive
    var lenHeader: nat     // length of the embedded header in front of the data
    var storedSize: nat    // iSize: bytes of data in the archive
    var realSize: nat      // size once any filter has been undone
    var name: string       // strName
    var compressed: bool   // the Compressed bit of fAttr
    var valid: bool        // bValid

    /** createNewFATEntry followed by the set-up at the start of insert: no header, not
        yet valid, realSize equal to the stored size. */
    constructor Blank(name: string, size: nat, compressed: bool)
      ensures this.name == name && storedSize == size && realSize == size
      ensures this.compressed == compressed && lenHeader == 0 && !valid
    {
      this.name := name;
      storedSize := size;
      realSize := size;
      this.compressed := compressed;
      lenHeader := 0;
      valid := false;
      index := 0;
      offset := 0;
    }

    /** An entry as a format reader builds it from the on-disk FAT. */
    constructor Parsed(index: int, offset: int, lenHeader: nat, storedSize: nat, realSize: nat,
                       name: string, compressed: bool)
      ensures this.index == index && this.offset == offset && this.lenHeader == lenHeader
      ensures this.storedSize == storedSize && this.realSize == realSize
      ensures this.name == name && this.compressed == compressed && valid
    {
      this.index := index;
      this.offset := offset;
      this.lenHeader := lenHeader;
      this.storedSize := storedSize;
      this.realSize := realSize;
      this.name := name;
      this.compressed := compressed;
      valid := true;
    }

    /** The placement of this entry, as the shift engine computes with it. */
    function Place(): Slot
      reads this`index, this`offset, this`lenHeader, this`storedSize
    {
      Slot(index, offset, lenHeader, storedSize)
    }
  }

  /** An open substream: a window of the archive bytes starting at `start`. `live` becomes
      false once every holder of the stream has let it go, which is when the archive's
      weak reference to it expires. */
  class SubStream {
    var start: int
    var size: nat
    var live: bool

    constructor (start: int, size: nat)
      ensures this.start == start && this.size == size && live
    {
      this.start := start;
      this.size := size;
      live := true;
    }

    /** substream::relocate: move the window by delta bytes. */
    method Relocate(delta: int)
      modifies this`start
      ensures start == old(start) + delta
    {
      start := start + delta;
    }

    /** substream::setSize. */
    method SetSize(n: nat)
      modifies this`size
      ensures size == n
    {
      size := n;
    }

    /** The last holder drops the stream. */
    method Release()
      modifies this`live
      ensures !live
    {
      live := false;
    }
  }

  /** One element of the open-file table: the entry a stream was opened on, and the stream. */
  datatype OpenFile = OpenFile(entry: FatEntry, sub: SubStream)

  /** A call the engine makes into the format adapter, with what the adapter can observe
      at that moment. */
  datatype HookCall =
    | UpdateFileOffset(entry: FatEntry, newOffset: int, newIndex: int, delta: int)
    | UpdateFileSize(entry: FatEntry, newSize: nat, delta: int)
    | PreInsertFile(before: FatEntry?, entry: FatEntry, entryValid: bool, index: int, offset: int, storeLen: nat)
    | PostInsertFile(entry: FatEntry, lenHeader: nat, storeLen: nat)
    | PreRemoveFile(entry: FatEntry, entryValid: bool, storeLen: nat)
    | PostRemoveFile(entry: FatEntry, entryValid: bool, offset: int, storedSize: nat, storeLen: nat)

  /** What the adapter's preInsertFile does with a new entry: refuse it (it throws and the
      archive is left untouched) or accept it, choosing the embedded header length. */
  datatype Adapter = Rejected | Accepted(lenHeader: nat)
  {
    /** The header length the new entry has once preInsertFile returns. */
    function Header(): nat { if Rejected? then 0 else lenHeader }
  }

  /** isValid: a non-null entry that is still marked valid. */
  predicate IsValid(id: FatEntry?)
    reads id
  {
    id != null && id.valid
  }

  /** entryInRange: should the shift engine move e? */
  predicate EntryInRange(e: FatEntry, offStart: int, skip: FatEntry?)
    reads e, skip
  {
    if e.offset < offStart then false
    else if IsValid(skip) then
      if e == skip then false
      else !(e.storedSize == 0 && e.offset == skip.offset && e.index < skip.index)
    else true
  }

  /** entryInRange holds exactly when the entry starts at or after offStart and, if the
      skip entry is valid, it is not the skip entry and passes the zero-length tie-break. */
  lemma EntryInRangeIff(e: FatEntry, offStart: int, skip: FatEntry?)
    ensures EntryInRange(e, offStart, skip) <==>
      e.offset >= offStart && (IsValid(skip) ==> e != skip && MovesPast(e.Place(), offStart, skip.Place()))
  {
  }

  /** With a valid skip entry that is not among es, entryInRange moves exactly the entries
      whose placements pass the layout test against the skip entry's placement. */
  lemma InRangeOthers(es: seq<FatEntry>, offStart: int, skip: FatEntry)
    requires skip.valid && skip !in es
    ensures InRangeFlags(es, offStart, skip) == PassFlags(Slots(es), offStart, skip.Place())
  {
    var vs := Slots(es);
    forall k | 0 <= k < |es|
      ensures InRangeFlags(es, offStart, skip)[k] == PassFlags(vs, offStart, skip.Place())[k]
    {
      assert vs[k] == es[k].Place();
    }
  }

  /** With the entry at position p as the (valid) skip entry, entryInRange moves exactly the
      other entries whose placements pass the layout test against it. */
  lemma InRangeMember(es: seq<FatEntry>, offStart: int, p: nat)
    requires p < |es| && es[p].valid
    requires Distinct(es)
    ensures InRangeFlags(es, offStart, es[p]) == PassFlags(Slots(es), offStart, es[p].Place())[p := false]
  {
    var vs := Slots(es);
    forall k | 0 <= k < |es|
      ensures InRangeFlags(es, offStart, es[p])[k] == PassFlags(vs, offStart, es[p].Place())[p := false][k]
    {
      assert vs[k] == es[k].Place();
      if k != p {
        DistinctAt(es, k, p);
      }
    }
  }

  /** entryInRange applied to each entry of the vector, in vector order. */
  ghost function InRangeFlags(es: seq<FatEntry>, offStart: int, skip: FatEntry?): (r: seq<bool>)
    reads (set e | e in es), skip
    ensures |r| == |es|
    ensures forall k {:trigger r[k]} :: 0 <= k < |es| ==> r[k] == EntryInRange(es[k], offStart, skip)
  {
    seq(|es|, k requires 0 <= k < |es| reads es, skip => EntryInRange(es[k], offStart, skip))
  }

  /** The window-pass test of shiftFiles: the stream's entry is valid, in range, and the
      stream is still alive. */
  predicate Relocates(o: OpenFile, offStart: int, skip: FatEntry?)
    reads o.entry, o.sub`live, skip
  {
    o.entry.valid && EntryInRange(o.entry, offStart, skip) && o.sub.live
  }

  /** The placements of a sequence of entries. */
  function Slots(es: seq<FatEntry>): (r: seq<Slot>)
    reads set e | e in es
    ensures |r| == |es|
    ensures forall k {:trigger r[k]} :: 0 <= k < |es| ==> r[k] == es[k].Place()
  {
    seq(|es|, k requires 0 <= k < |es| reads es => es[k].Place())
  }

  /** The updateFileOffset calls of a shiftFiles pass over es, in vector order: one per
      moved entry, each with the entry and the offset and index it holds at that point
      (both already updated, so the adapter rewrites the right on-disk slot). */
  function OffsetCalls(es: seq<FatEntry>, moved: seq<bool>, delta: int): seq<HookCall>
    requires |moved| == |es|
    reads (set e | e in es)`offset, (set e | e in es)`index
  {
    CallsBelow(es, moved, delta, |es|)
  }

  /** The calls of the first n steps of the pass. */
  function CallsBelow(es: seq<FatEntry>, moved: seq<bool>, delta: int, n: nat): seq<HookCall>
    requires |moved| == |es| && n <= |es|
    reads (set e | e in es)`offset, (set e | e in es)`index
  {
    if n == 0 then []
    else
      var last := if moved[n - 1] then [UpdateFileOffset(es[n - 1], es[n - 1].offset, es[n - 1].index, delta)] else [];
      CallsBelow(es, moved, delta, n - 1) + last
  }

  /** The open-file table without its expired streams, in the same order. */
  function LiveOnly(s: seq<OpenFile>): (r: seq<OpenFile>)
    reads (set o | o in s :: o.sub)`live
    ensures |r| <= |s|
    ensures forall k :: 0 <= k < |r| ==> r[k] in s && r[k].sub.live
  {
    if s == [] then [] else (if s[0].sub.live then [s[0]] else []) + LiveOnly(s[1..])
  }

  /** Every live stream of the table survives the clean-up. */
  lemma {:induction false} LiveOnlyKeepsLive(s: seq<OpenFile>, k: nat)
    requires k < |s| && s[k].sub.live
    ensures s[k] in LiveOnly(s)
  {
    if k > 0 {
      LiveOnlyKeepsLive(s[1..], k - 1);
    }
  }

  /** The clean-up keeps exactly the live streams of the table. */
  lemma LiveOnlyBetween(s: seq<OpenFile>)
    ensures forall o :: o in LiveOnly(s) ==> o in s && o.sub.live
    ensures forall o :: o in s && o.sub.live ==> o in LiveOnly(s)
  {
    forall o | o in s && o.sub.live
      ensures o in LiveOnly(s)
    {
      var k :| 0 <= k < |s| && s[k] == o;
      LiveOnlyKeepsLive(s, k);
    }
  }

  /** A stream that a sub-table of a table with distinct streams no longer holds is not
      the stream of any element left in it. */
  lemma DroppedStreamUntouched(s: seq<OpenFile>, t: seq<OpenFile>, o: OpenFile)
    requires DistinctSubs(s) && (forall x :: x in t ==> x in s) && o in s && o !in t
    ensures forall x :: x in t ==> x.sub != o.sub
  {
    forall x | x in t
      ensures x.sub != o.sub
    {
      var i :| 0 <= i < |s| && s[i] == x;
      var j :| 0 <= j < |s| && s[j] == o;
      DistinctSubsAt(s, i, j);
    }
  }

  /** Dropping an expired stream does not change the live part of the table. */
  lemma {:induction false} LiveOnlyDropsExpired(s: seq<OpenFile>, i: nat)
    requires i < |s| && !s[i].sub.live
    ensures LiveOnly(s[..i] + s[i + 1..]) == LiveOnly(s)
  {
    if i == 0 {
      assert s[..i] + s[i + 1..] == s[1..];
    } else {
      var t := s[..i] + s[i + 1..];
      assert t[0] == s[0];
      assert t[1..] == s[1..][..i - 1] + s[1..][i..];
      LiveOnlyDropsExpired(s[1..], i - 1);
    }
  }

  /** A table whose streams are all alive is its own live part. */
  lemma {:induction false} LiveOnlyKeepsAllLive(s: seq<OpenFile>)
    requires forall k :: 0 <= k < |s| ==> s[k].sub.live
    ensures LiveOnly(s) == s
  {
    if s != [] {
      LiveOnlyKeepsAllLive(s[1..]);
    }
  }

  /** No element appears twice in the sequence. */
  predicate Distinct<T(==)>(es: seq<T>)
  {
    forall i :: 0 <= i < |es| ==> multiset(es)[es[i]] == 1
  }

  /** Two positions of a sequence without repeats hold different elements. */
  lemma DistinctAt<T>(es: seq<T>, i: nat, j: nat)
    requires Distinct(es) && i < |es| && j < |es| && i != j
    ensures es[i] != es[j]
  {
    var lo, hi := if i < j then i else j, if i < j then j else i;
    assert es == es[..hi] + es[hi..];
    assert es[lo] == es[..hi][lo] && es[hi] == es[hi..][0];
    assert multiset(es) == multiset(es[..hi]) + multiset(es[hi..]);
  }

  /** Splicing in an element the sequence does not hold keeps it free of repeats. */
  lemma DistinctSplice<T>(es: seq<T>, pos: nat, n: T)
    requires Distinct(es) && n !in es && pos <= |es|
    ensures Distinct(es[..pos] + [n] + es[pos..])
  {
    var t := es[..pos] + [n] + es[pos..];
    assert es == es[..pos] + es[pos..];
    assert multiset(t) == multiset(es) + multiset{n};
    forall i | 0 <= i < |t|
      ensures multiset(t)[t[i]] == 1
    {
      if i != pos {
        var k := if i < pos then i else i - 1;
        assert t[i] == es[k];
      }
    }
  }

  /** Erasing a position keeps the sequence free of repeats, and its element is gone. */
  lemma DistinctErase<T>(es: seq<T>, pos: nat)
    requires Distinct(es) && pos < |es|
    ensures Distinct(es[..pos] + es[pos + 1..]) && es[pos] !in es[..pos] + es[pos + 1..]
  {
    var t := es[..pos] + es[pos + 1..];
    assert es == es[..pos] + [es[pos]] + es[pos + 1..];
    assert multiset(t) == multiset(es) - multiset{es[pos]};
    forall i | 0 <= i < |t|
      ensures multiset(t)[t[i]] == 1
    {
      var k := if i < pos then i else i + 1;
      assert t[i] == es[k];
      DistinctAt(es, k, pos);
    }
  }

  /** The streams of a table, in table order. */
  function Streams(s: seq<OpenFile>): (r: seq<SubStream>)
    ensures |r| == |s|
    ensures forall k {:trigger r[k]} :: 0 <= k < |s| ==> r[k] == s[k].sub
  {
    seq(|s|, k requires 0 <= k < |s| => s[k].sub)
  }

  /** Each stream appears once in the table. */
  predicate DistinctSubs(s: seq<OpenFile>)
  {
    Distinct(Streams(s))
  }

  /** Two elements at different positions of such a table hold different streams. */
  lemma DistinctSubsAt(s: seq<OpenFile>, i: nat, j: nat)
    requires DistinctSubs(s) && i < |s| && j < |s| && i != j
    ensures s[i].sub != s[j].sub
  {
    DistinctAt(Streams(s), i, j);
  }

  /** Dropping an element of the table keeps its streams distinct. */
  lemma DropKeepsDistinct(s: seq<OpenFile>, i: nat)
    requires i < |s| && DistinctSubs(s)
    ensures DistinctSubs(s[..i] + s[i + 1..])
  {
    var t := s[..i] + s[i + 1..];
    DistinctErase(Streams(s), i);
    assert Streams(t) == Streams(s)[..i] + Streams(s)[i + 1..];
  }

  /** Appending an element with a stream the table does not hold keeps its streams distinct. */
  lemma AddKeepsDistinct(s: seq<OpenFile>, o: OpenFile)
    requires DistinctSubs(s) && forall k :: 0 <= k < |s| ==> s[k].sub != o.sub
    ensures DistinctSubs(s + [o])
  {
    var ss := Streams(s);
    assert o.sub !in ss;
    DistinctSplice(ss, |ss|, o.sub);
    assert Streams(s + [o]) == ss[..|ss|] + [o.sub] + ss[|ss|..];
  }

  /** std::toupper in the "C" locale: only the ASCII letters a-z change. */
  function Upper(c: char): (r: char)
    ensures 'a' <= c <= 'z' ==> r as int == c as int - 32
    ensures !('a' <= c <= 'z') ==> r == c
  {
    if 'a' <= c <= 'z' then (c as int - 32) as char else c
  }

  /** boost::iequals: same length, and equal character by character once upper-cased. */
  predicate IEquals(a: string, b: string)
  {
    |a| == |b| && forall i :: 0 <= i < |a| ==> Upper(a[i]) == Upper(b[i])
  }

  /** Two characters fold alike exactly when they are equal or are one ASCII letter in its
      two cases; folding is idempotent and never yields a lower-case letter. */
  lemma UpperMatches(c: char, d: char)
    ensures Upper(c) == Upper(d) <==>
      c == d || ('a' <= c <= 'z' && d as int == c as int - 32) || ('a' <= d <= 'z' && c as int == d as int - 32)
    ensures Upper(Upper(c)) == Upper(c) && !('a' <= Upper(c) <= 'z')
  {
  }

  /** Two names match exactly when they have the same length and agree at every position
      up to the case of an ASCII letter. */
  lemma IEqualsIff(a: string, b: string)
    ensures IEquals(a, b) <==> |a| == |b| && forall i :: 0 <= i < |a| ==>
      a[i] == b[i] || ('a' <= a[i] <= 'z' && b[i] as int == a[i] as int - 32)
                   || ('a' <= b[i] <= 'z' && a[i] as int == b[i] as int - 32)
  {
    if |a| == |b| {
      forall i | 0 <= i < |a| { UpperMatches(a[i], b[i]); }
    }
  }

  /** Name matching ignores case in both directions and is an equivalence. */
  lemma IEqualsIsEquivalence(a: string, b: string, c: string)
    ensures IEquals(a, a)
    ensures IEquals(a, b) ==> IEquals(b, a)
    ensures IEquals(a, b) && IEquals(b, c) ==> IEquals(a, c)
  {
  }

  /** The names of a test archive match whatever the case. */
  lemma IEqualsMixedCase()
    ensures IEquals("two.dat", "TWO.DAT") && IEquals("Two.Dat", "tWO.dAT")
    ensures !IEquals("ONE.DAT", "TWO.DAT") && !IEquals("ONE.DAT", "ONE.DA")
  {
    assert Upper("ONE.DAT"[0]) != Upper("TWO.DAT"[0]);
  }

  /** getFileAt: the first entry of a file list whose on-disk index is `index`. */
  method GetFileAt(files: seq<FatEntry>, index: int) returns (r: FatEntry?)
    ensures r == null <==> PositionOf(Slots(files), index) == |files|
    ensures r != null ==> PositionOf(Slots(files), index) < |files| && r == files[PositionOf(Slots(files), index)]
  {
    var i := 0;
    while i < |files|
      invariant 0 <= i <= |files|
      invariant forall k :: 0 <= k < i ==> files[k].index != index
    {
      if files[i].index == index {
        PositionOfIs(Slots(files), index, i);
        return files[i];
      }
      i := i + 1;
    }
    PositionOfIs(Slots(files), index, |files|);
    return null;
  }

  /** std::find over the FAT vector: the first position holding x. */
  method IndexOf(es: seq<FatEntry>, x: FatEntry) returns (p: nat)
    requires x in es
    ensures p < |es| && es[p] == x
    ensures forall j :: 0 <= j < p ==> es[j] != x
  {
    p := 0;
    while es[p] != x
      invariant p < |es|
      invariant forall j :: 0 <= j < p ==> es[j] != x
      decreases |es| - p
    {
      p := p + 1;
    }
  }

  /** The archive. */
  class FatArchive {
    var fat: seq<FatEntry>           // vcFAT
    var openFiles: seq<OpenFile>     // openFiles, in iteration order
    var store: seq<byte>             // the segmented stream's current contents
    var committed: seq<byte>         // what the underlying file holds after the last commit
    const offFirstFile: int          // where the first file goes in an empty archive
    ghost var hooks: seq<HookCall>   // every adapter call made so far

    constructor (content: seq<byte>, offFirstFile: int)
      ensures fat == [] && openFiles == [] && hooks == []
      ensures store == content && committed == content && this.offFirstFile == offFirstFile
      ensures Valid()
    {
      fat := [];
      openFiles := [];
      store := content;
      committed := content;
      this.offFirstFile := offFirstFile;
      hooks := [];
    }

    ghost function FatSet(): set<FatEntry>
      reads this`fat
    {
      set e | e in fat
    }

    ghost function Subs(): set<SubStream>
      reads this`openFiles
    {
      set o | o in openFiles :: o.sub
    }

    ghost function OpenEntries(): set<FatEntry>
      reads this`openFiles
    {
      set o | o in openFiles :: o.entry
    }

    /** The vector holds each entry once, and each stream appears once in the table. */
    ghost predicate Valid()
      reads this`fat, this`openFiles
    {
      && Distinct(fat)
      && DistinctSubs(openFiles)
    }

    /** The layout invariant: every entry in the vector is valid and the vector is tiled
        (in index order, dense indices, blocks inside the archive, no overlap). */
    ghost predicate Tiled()
      reads this`fat, this`store, FatSet()
    {
      && Sound()
      && Layout.Tiled(Slots(fat), offFirstFile, |store|)
    }

    /** Every entry in the vector is valid. */
    ghost predicate Sound()
      reads this`fat, FatSet()`valid
    {
      forall e :: e in fat ==> e.valid
    }

    /** Every live stream on a valid entry belongs to an entry of the vector and its window
        is exactly that entry's data. */
    ghost predicate Tracking()
      reads this`fat, this`openFiles, OpenEntries()`valid, OpenEntries()`offset, OpenEntries()`lenHeader
      reads OpenEntries()`storedSize, Subs()`start, Subs()`size, Subs()`live
    {
      StartsTrack(null) && SizesTrack(null)
    }

    /** Every live stream on a valid entry other than x belongs to an entry of the vector
        and its window starts at that entry's data. */
    ghost predicate StartsTrack(x: FatEntry?)
      reads this`fat, this`openFiles, OpenEntries()`valid, OpenEntries()`offset, OpenEntries()`lenHeader
      reads Subs()`start, Subs()`live
    {
      forall o :: o in openFiles && o.entry.valid && o.sub.live && o.entry != x ==>
        o.entry in fat && o.sub.start == o.entry.offset + o.entry.lenHeader
    }

    /** Every live stream on a valid entry other than x has a window as long as the entry's
        data. */
    ghost predicate SizesTrack(x: FatEntry?)
      reads this`openFiles, OpenEntries()`valid, OpenEntries()`storedSize, Subs()`size, Subs()`live
    {
      forall o :: o in openFiles && o.entry.valid && o.sub.live && o.entry != x ==>
        o.sub.size == o.entry.storedSize
    }

    /** Between the two passes of shiftFiles: every tracked window except those on x is
        off from its entry's data by delta exactly when the entry is in range, so the
        window pass, which moves just those, lines them all up again. */
    ghost predicate StartsPending(x: FatEntry?, offStart: int, skip: FatEntry?, delta: int)
      reads this`fat, this`openFiles, OpenEntries(), Subs()`start, Subs()`live, skip
    {
      forall o :: o in openFiles && o.entry.valid && o.sub.live && o.entry != x ==>
        && o.entry in fat
        && o.sub.start + (if EntryInRange(o.entry, offStart, skip) then delta else 0) == o.entry.offset + o.entry.lenHeader
    }

    /** One step of the first loop of shiftFiles: move e if it is in range. */
    method MoveOne(e: FatEntry, skip: FatEntry?, offStart: int, deltaOffset: int, deltaIndex: int) returns (inRange: bool)
      modifies e`offset, e`index
      ensures inRange == old(EntryInRange(e, offStart, skip))
      ensures e.Place() == if inRange then Bumped(old(e.Place()), deltaOffset, deltaIndex) else old(e.Place())
    {
      inRange := EntryInRange(e, offStart, skip);
      if inRange {
        e.offset := e.offset + deltaOffset;
        e.index := e.index + deltaIndex;
      }
    }

    /** The first loop of shiftFiles: move the entries in range. The adapter's
        updateFileOffset calls are appended to the log once the loop is done: each moved
        entry is called once, with the entry and its new offset and index, and no entry is touched
        again after its own step, so what the log records is what each call sees. */
    method MoveEntries(skip: FatEntry?, offStart: int, deltaOffset: int, deltaIndex: int, ghost x: FatEntry?) returns (ghost moved: seq<bool>)
      requires Valid()
      modifies this`hooks, FatSet()`offset, FatSet()`index
      ensures |moved| == |fat|
      ensures moved == old(InRangeFlags(fat, offStart, skip))
      ensures Slots(fat) == BumpWhere(old(Slots(fat)), moved, deltaOffset, deltaIndex)
      ensures hooks == old(hooks) + OffsetCalls(fat, moved, deltaOffset)
      ensures old(StartsTrack(x)) && InRangeFlags(fat, offStart, skip) == moved ==> StartsPending(x, offStart, skip, deltaOffset)
      ensures forall o :: o in openFiles ==> o.sub.start == old(o.sub.start)
    {
      moved := EntryPass(skip, offStart, deltaOffset, deltaIndex, x);
      hooks := hooks + OffsetCalls(fat, moved, deltaOffset);
    }

    /** The entry pass with its effect on the windows: it leaves every tracked window off
        by deltaOffset exactly where the window pass will find its entry in range, provided
        the window pass's test agrees with the entry pass's (moved). */
    method EntryPass(skip: FatEntry?, offStart: int, deltaOffset: int, deltaIndex: int, ghost x: FatEntry?) returns (ghost moved: seq<bool>)
      requires Valid()
      modifies FatSet()`offset, FatSet()`index
      ensures |moved| == |fat|
      ensures moved == old(InRangeFlags(fat, offStart, skip))
      ensures Slots(fat) == BumpWhere(old(Slots(fat)), moved, deltaOffset, deltaIndex)
      ensures old(StartsTrack(x)) && InRangeFlags(fat, offStart, skip) == moved ==> StartsPending(x, offStart, skip, deltaOffset)
    {
      moved := MoveEach(skip, offStart, deltaOffset, deltaIndex);
      if old(StartsTrack(x)) && InRangeFlags(fat, offStart, skip) == moved {
        forall o | o in openFiles && o.entry.valid && o.sub.live && o.entry != x
          ensures o.sub.start + (if EntryInRange(o.entry, offStart, skip) then deltaOffset else 0) == o.entry.offset + o.entry.lenHeader
        {
          var k :| 0 <= k < |fat| && fat[k] == o.entry;
          assert Slots(fat)[k] == o.entry.Place();
          assert old(Slots(fat))[k] == old(o.entry.Place());
          assert InRangeFlags(fat, offStart, skip)[k] == EntryInRange(o.entry, offStart, skip);
        }
      }
    }

    /** The loop of MoveEntries: each entry in range, judged before the loop touches it,
        is bumped; the others keep their placement. */
    method MoveEach(skip: FatEntry?, offStart: int, deltaOffset: int, deltaIndex: int) returns (ghost moved: seq<bool>)
      requires Valid()
      modifies FatSet()`offset, FatSet()`index
      ensures |moved| == |fat|
      ensures moved == old(InRangeFlags(fat, offStart, skip))
      ensures Slots(fat) == BumpWhere(old(Slots(fat)), moved, deltaOffset, deltaIndex)
    {
      ghost var vs := Slots(fat);
      ghost var flags := InRangeFlags(fat, offStart, skip);
      moved := [];
      var k := 0;
      while k < |fat|
        invariant 0 <= k <= |fat| && |moved| == k
        invariant IsValid(skip) ==> skip.Place() == old(skip.Place())
        invariant moved == flags[..k]
        invariant forall j :: 0 <= j < |fat| ==> fat[j].Place() == if j < k && moved[j] then Bumped(vs[j], deltaOffset, deltaIndex) else vs[j]
        decreases |fat| - k
      {
        forall j | 0 <= j < |fat| && j != k
          ensures fat[j] != fat[k]
        {
          DistinctAt(fat, j, k);
        }
        assert EntryInRange(fat[k], offStart, skip) == flags[k];
        var inRange := MoveOne(fat[k], skip, offStart, deltaOffset, deltaIndex);
        moved := moved + [inRange];
        k := k + 1;
      }
    }

    /** The second loop of shiftFiles: relocate the live streams whose valid entry is in
        range; report whether the table holds a stream on an invalid entry (the source's flag
        `clean`, which asks for a clean-up). */
    method RelocateWindows(skip: FatEntry?, offStart: int, deltaOffset: int) returns (dirty: bool)
      requires Valid()
      modifies Subs()`start
      ensures forall o :: o in openFiles ==>
        o.sub.start == old(o.sub.start) + (if Relocates(o, offStart, skip) then deltaOffset else 0)
      ensures dirty <==> exists k :: 0 <= k < |openFiles| && !openFiles[k].entry.valid
    {
      dirty := false;
      var j := 0;
      while j < |openFiles|
        invariant 0 <= j <= |openFiles|
        invariant forall k :: 0 <= k < j ==>
          openFiles[k].sub.start == old(openFiles[k].sub.start) + (if Relocates(openFiles[k], offStart, skip) then deltaOffset else 0)
        invariant forall k :: j <= k < |openFiles| ==> openFiles[k].sub.start == old(openFiles[k].sub.start)
        invariant dirty <==> exists k :: 0 <= k < j && !openFiles[k].entry.valid
      {
        var o := openFiles[j];
        forall k | 0 <= k < |openFiles| && k != j
          ensures openFiles[k].sub != o.sub
        {
          DistinctSubsAt(openFiles, k, j);
        }
        if o.entry.valid {
          if EntryInRange(o.entry, offStart, skip) {
            if o.sub.live {
              o.sub.Relocate(deltaOffset);
            }
          }
        } else {
          dirty := true;
        }
        j := j + 1;
      }
      forall o | o in openFiles
        ensures o.sub.start == old(o.sub.start) + (if Relocates(o, offStart, skip) then deltaOffset else 0)
      {
        var k :| 0 <= k < |openFiles| && openFiles[k] == o;
      }
    }

    /** The window pass with its effect on tracking: windows left pending by the entry
        pass line up with their entries again. */
    method WindowPass(skip: FatEntry?, offStart: int, deltaOffset: int, ghost x: FatEntry?, ghost moved: seq<bool>)
        returns (dirty: bool)
      requires Valid() && |moved| == |fat|
      modifies Subs()`start
      ensures forall o :: o in openFiles ==>
        o.sub.start == old(o.sub.start) + (if Relocates(o, offStart, skip) then deltaOffset else 0)
      ensures dirty <==> exists k :: 0 <= k < |openFiles| && !openFiles[k].entry.valid
      ensures old(StartsPending(x, offStart, skip, deltaOffset)) ==> StartsTrack(x)
      ensures InRangeFlags(fat, offStart, skip) == old(InRangeFlags(fat, offStart, skip))
      ensures Slots(fat) == old(Slots(fat))
      ensures OffsetCalls(fat, moved, deltaOffset) == old(OffsetCalls(fat, moved, deltaOffset))
    {
      dirty := RelocateWindows(skip, offStart, deltaOffset);
      if old(StartsPending(x, offStart, skip, deltaOffset)) {
        forall o | o in openFiles && o.entry.valid && o.sub.live && o.entry != x
          ensures o.entry in fat && o.sub.start == o.entry.offset + o.entry.lenHeader
        {
          assert Relocates(o, offStart, skip) == EntryInRange(o.entry, offStart, skip);
        }
      }
    }

    /** shiftFiles: move every entry in range by deltaOffset bytes and deltaIndex places,
        telling the adapter about each, then move the windows of the open streams that
        are in range, and drop expired streams if a stream on an invalid entry was seen. */
    method ShiftFiles(skip: FatEntry?, offStart: int, deltaOffset: int, deltaIndex: int, ghost x: FatEntry?, ghost y: FatEntry?)
        returns (ghost moved: seq<bool>, dirty: bool)
      requires Valid()
      modifies this`hooks, this`openFiles, FatSet()`offset, FatSet()`index, Subs()`start
      ensures Valid() && fat == old(fat) && |moved| == |fat|
      ensures moved == old(InRangeFlags(fat, offStart, skip))
      ensures Slots(fat) == BumpWhere(old(Slots(fat)), moved, deltaOffset, deltaIndex)
      ensures hooks == old(hooks) + OffsetCalls(fat, moved, deltaOffset)
      ensures forall o :: o in old(openFiles) ==>
        o.sub.start == old(o.sub.start) + (if Relocates(o, offStart, skip) then deltaOffset else 0)
      ensures dirty <==> exists k :: 0 <= k < |old(openFiles)| && !old(openFiles)[k].entry.valid
      ensures openFiles == if dirty then LiveOnly(old(openFiles)) else old(openFiles)
      ensures forall o :: o in openFiles ==> o in old(openFiles)
      ensures forall o :: o in old(openFiles) && o.sub.live ==> o in openFiles
      ensures old(StartsTrack(x)) && InRangeFlags(fat, offStart, skip) == moved ==> StartsTrack(x)
      ensures old(SizesTrack(y)) ==> SizesTrack(y)
    {
      ghost var table := openFiles;
      ghost var cleaned := LiveOnly(openFiles);
      moved := MoveEntries(skip, offStart, deltaOffset, deltaIndex, x);
      assert cleaned == LiveOnly(openFiles);
      assert forall o :: o in table ==> o.sub.live == old(o.sub.live) && o.entry.valid == old(o.entry.valid);
      assert old(SizesTrack(y)) ==> SizesTrack(y);
      ghost var log := hooks;
      dirty := UpdateWindows(skip, offStart, deltaOffset, x, y, moved);
      assert hooks == log;
    }

    /** The second half of shiftFiles: relocate the windows in range, then clean up the
        table if a stream on an invalid entry was seen. */
    method UpdateWindows(skip: FatEntry?, offStart: int, deltaOffset: int, ghost x: FatEntry?, ghost y: FatEntry?, ghost moved: seq<bool>)
        returns (dirty: bool)
      requires Valid() && |moved| == |fat|
      modifies this`openFiles, Subs()`start
      ensures Valid()
      ensures forall o :: o in old(openFiles) ==>
        o.sub.start == old(o.sub.start) + (if Relocates(o, offStart, skip) then deltaOffset else 0)
      ensures dirty <==> exists k :: 0 <= k < |old(openFiles)| && !old(openFiles)[k].entry.valid
      ensures openFiles == if dirty then LiveOnly(old(openFiles)) else old(openFiles)
      ensures forall o :: o in openFiles ==> o in old(openFiles)
      ensures forall o :: o in old(openFiles) && o.sub.live ==> o in openFiles
      ensures old(StartsPending(x, offStart, skip, deltaOffset)) ==> StartsTrack(x)
      ensures old(SizesTrack(y)) ==> SizesTrack(y)
      ensures InRangeFlags(fat, offStart, skip) == old(InRangeFlags(fat, offStart, skip))
      ensures Slots(fat) == old(Slots(fat))
      ensures OffsetCalls(fat, moved, deltaOffset) == old(OffsetCalls(fat, moved, deltaOffset))
    {
      dirty := WindowPass(skip, offStart, deltaOffset, x, moved);
      if dirty {
        Prune(x, y, skip, offStart, deltaOffset, moved);
      }
    }

    /** The clean-up that shiftFiles asks for: only the live streams stay in the table, so
        every window that tracked its entry still does. */
    method Prune(ghost x: FatEntry?, ghost y: FatEntry?, ghost skip: FatEntry?, ghost offStart: int, ghost deltaOffset: int, ghost moved: seq<bool>)
      requires Valid() && |moved| == |fat|
      modifies this`openFiles
      ensures Valid() && openFiles == LiveOnly(old(openFiles))
      ensures forall o :: o in openFiles ==> o in old(openFiles)
      ensures forall o :: o in old(openFiles) && o.sub.live ==> o in openFiles
      ensures old(StartsTrack(x)) ==> StartsTrack(x)
      ensures old(SizesTrack(y)) ==> SizesTrack(y)
      ensures InRangeFlags(fat, offStart, skip) == old(InRangeFlags(fat, offStart, skip))
      ensures Slots(fat) == old(Slots(fat))
      ensures OffsetCalls(fat, moved, deltaOffset) == old(OffsetCalls(fat, moved, deltaOffset))
    {
      CleanOpenSubstreams();
      LiveOnlyBetween(old(openFiles));
      if old(StartsTrack(x)) {
        forall o | o in openFiles && o.entry.valid && o.sub.live && o.entry != x
          ensures o.entry in fat && o.sub.start == o.entry.offset + o.entry.lenHeader
        {
          assert o in old(openFiles);
        }
      }
      if old(SizesTrack(y)) {
        forall o | o in openFiles && o.entry.valid && o.sub.live && o.entry != y
          ensures o.sub.size == o.entry.storedSize
        {
          assert o in old(openFiles);
        }
      }
    }

    /** Where insert puts a new entry (fatarchive.cpp:157-179): at the place and index of a
        valid entry it goes before, else after the last entry of the vector, else at the
        first-file offset with index 0. */
    ghost function NewPlace(before: FatEntry?, lenHeader: nat, size: nat): Slot
      reads this`fat, FatSet(), before
    {
      if IsValid(before) then Slot(before.index, before.offset, lenHeader, size)
      else Appended(Slots(fat), offFirstFile, lenHeader, size)
    }

    /** The first steps of insert: a blank entry, placed before `before` or after the
        last entry. */
    method NewEntry(name: string, size: nat, compressed: bool, before: FatEntry?) returns (n: FatEntry)
      ensures fresh(n) && !n.valid && n.name == name && n.compressed == compressed
      ensures n.storedSize == size && n.realSize == size && n.lenHeader == 0
      ensures n.Place() == NewPlace(before, 0, size)
      ensures n !in OpenEntries() && (old(Tracking()) ==> Tracking())
    {
      n := new FatEntry.Blank(name, size, compressed);
      if IsValid(before) {
        n.offset := before.offset;
        n.index := before.index;
      } else if |fat| > 0 {
        var last := fat[|fat| - 1];
        n.offset := last.offset + last.lenHeader + last.storedSize;
        n.index := last.index + 1;
      } else {
        n.offset := offFirstFile;
        n.index := 0;
      }
    }

    /** The shift a mid-archive insert makes before the splice: every entry from the new
        entry's data start on moves by its size and one index, with the new (already valid,
        not yet listed) entry as the skip entry. pos is where `before` sits. Moving forward
        keeps every window's in-range test as it was, so tracking windows keep tracking. */
    method MakeRoom(n: FatEntry, before: FatEntry) returns (pos: nat, ghost moved: seq<bool>)
      requires Valid() && n.valid && n !in fat && before in fat
      requires n.offset == before.offset && n.index == before.index
      modifies this`hooks, this`openFiles, FatSet()`offset, FatSet()`index, Subs()`start
      ensures Valid() && fat == old(fat) && pos < |fat| && fat[pos] == before
      ensures n.Place() == old(n.Place()) && n.Place() == InsertedBefore(old(Slots(fat)), pos, n.lenHeader, n.storedSize)
      ensures Slots(fat) == ShiftSlots(old(Slots(fat)), DataStart(n.Place()), n.storedSize, 1, n.Place())
      ensures |moved| == |fat| && hooks == old(hooks) + OffsetCalls(fat, moved, n.storedSize)
      ensures forall o :: o in openFiles ==> o in old(openFiles)
      ensures forall o :: o in old(openFiles) && o.sub.live ==> o in openFiles
      ensures old(Tracking()) ==> Tracking()
    {
      pos := IndexOf(fat, before);
      ghost var vs := Slots(fat);
      ghost var np := n.Place();
      moved := ShiftForward(n);
      InRangeOthers(fat, DataStart(np), n);
      ForwardShiftKeepsFlags(vs, DataStart(np), n.storedSize, 1, np);
    }

    /** shiftFiles as a mid-archive insert calls it, with the new entry as the skip entry. */
    method ShiftForward(n: FatEntry) returns (ghost moved: seq<bool>)
      requires Valid() && n.valid && n !in fat
      modifies this`hooks, this`openFiles, FatSet()`offset, FatSet()`index, Subs()`start
      ensures Valid() && fat == old(fat) && n.Place() == old(n.Place())
      ensures Slots(fat) == ShiftSlots(old(Slots(fat)), DataStart(n.Place()), n.storedSize, 1, n.Place())
      ensures |moved| == |fat| && hooks == old(hooks) + OffsetCalls(fat, moved, n.storedSize)
      ensures moved == PassFlags(old(Slots(fat)), DataStart(n.Place()), n.Place())
      ensures forall o :: o in openFiles ==> o in old(openFiles)
      ensures forall o :: o in old(openFiles) && o.sub.live ==> o in openFiles
      ensures old(SizesTrack(null)) ==> SizesTrack(null)
      ensures old(StartsTrack(null)) && InRangeFlags(fat, DataStart(n.Place()), n) == moved ==> StartsTrack(null)
    {
      ghost var vs := Slots(fat);
      ghost var np := n.Place();
      var offStart := DataStart(n.Place());
      InRangeOthers(fat, offStart, n);
      ghost var flags := PassFlags(vs, offStart, np);
      ghost var dirty;
      moved, dirty := ShiftFiles(n, offStart, n.storedSize, 1, null, null);
      assert moved == flags;
      ShiftIsBumpWhere(vs, moved, offStart, n.storedSize, 1, np);
    }

    /** The mid-archive part of insert: make room, then splice the new entry in just
        before `before`. */
    method InsertMid(n: FatEntry, before: FatEntry) returns (pos: nat, ghost moved: seq<bool>)
      requires Valid() && n.valid && n !in fat && before in fat
      requires n.offset == before.offset && n.index == before.index
      modifies this`fat, this`hooks, this`openFiles, FatSet()`offset, FatSet()`index, Subs()`start
      ensures Valid() && pos < |old(fat)| && old(fat)[pos] == before
      ensures fat == old(fat)[..pos] + [n] + old(fat)[pos..]
      ensures n.Place() == old(n.Place())
      ensures Slots(fat) == InsertSlots(old(Slots(fat)), pos, n.lenHeader, n.storedSize)
      ensures |moved| == |old(fat)| && hooks == old(hooks) + OffsetCalls(old(fat), moved, n.storedSize)
      ensures forall o :: o in openFiles ==> o in old(openFiles)
      ensures forall o :: o in old(openFiles) && o.sub.live ==> o in openFiles
      ensures old(Tracking()) ==> Tracking()
    {
      ghost var vs := Slots(fat);
      pos, moved := MakeRoom(n, before);
      ghost var ws := Slots(fat);
      SpliceAt(n, pos);
      InsertIsSplice(vs, pos, n.lenHeader, n.storedSize, ws);
    }

    /** vcFAT.insert(it, n) or vcFAT.push_back(n): n goes into the vector at position pos,
        just before the entry that was there, or at the end. */
    method SpliceAt(n: FatEntry, pos: nat)
      requires Valid() && n !in fat && pos <= |fat|
      modifies this`fat
      ensures Valid() && fat == old(fat)[..pos] + [n] + old(fat)[pos..]
      ensures Slots(fat) == old(Slots(fat))[..pos] + [n.Place()] + old(Slots(fat))[pos..]
      ensures old(Tracking()) ==> Tracking()
    {
      DistinctSplice(fat, pos, n);
      fat := fat[..pos] + [n] + fat[pos..];
    }

    /** The start of insert: a blank entry at its place, shown to the adapter's
        preInsertFile while it is not yet valid; nothing else changes. */
    method Propose(name: string, size: nat, compressed: bool, before: FatEntry?) returns (n: FatEntry)
      modifies this`hooks
      ensures fresh(n) && !n.valid && n.name == name && n.compressed == compressed
      ensures n.storedSize == size && n.realSize == size && n.lenHeader == 0
      ensures n.Place() == old(NewPlace(before, 0, size))
      ensures hooks == old(hooks) + [PreInsertFile(if IsValid(before) then before else null, n, false, n.index, n.offset, |store|)]
      ensures n !in OpenEntries() && Tracking() == old(Tracking()) && Tiled() == old(Tiled())
    {
      n := NewEntry(name, size, compressed, before);
      Announce(PreInsertFile(if IsValid(before) then before else null, n, n.valid, n.index, n.offset, |store|));
    }

    /** A call into the format adapter, recorded in the log. */
    method Announce(call: HookCall)
      modifies this`hooks
      ensures hooks == old(hooks) + [call]
    {
      hooks := hooks + [call];
    }

    /** The part of insert after the adapter accepted the entry: mark it valid, list it,
        open a gap of its size in the archive bytes just after its header, and tell the
        adapter it is in. */
    method AddEntry(n: FatEntry, before: FatEntry?, lenHeader: nat) returns (pos: nat, ghost moved: seq<bool>)
      requires Valid() && n !in fat && n != before && (IsValid(before) ==> before in fat)
      requires n.index == NewPlace(before, lenHeader, n.storedSize).index
      requires n.offset == NewPlace(before, lenHeader, n.storedSize).offset
      requires 0 <= n.offset + lenHeader <= |store|
      modifies n`lenHeader, n`valid
      modifies this`fat, this`hooks, this`openFiles, this`store, FatSet()`offset, FatSet()`index, Subs()`start
      ensures n.valid && n.lenHeader == lenHeader && n.index == old(n.index) && n.offset == old(n.offset)
      ensures Valid() && pos <= |old(fat)| && fat == old(fat)[..pos] + [n] + old(fat)[pos..]
      ensures old(IsValid(before)) ==> pos < |old(fat)| && |moved| == |old(fat)|
      ensures store == InsertAt(old(store), DataStart(n.Place()), n.storedSize)
      ensures hooks == old(hooks) + (if old(IsValid(before)) then OffsetCalls(old(fat), moved, n.storedSize) else [])
        + [PostInsertFile(n, n.lenHeader, |store|)]
      ensures old(IsValid(before)) ==>
        old(fat)[pos] == before && Slots(fat) == InsertSlots(old(Slots(fat)), pos, n.lenHeader, n.storedSize)
      ensures forall o :: o in openFiles ==> o in old(openFiles)
      ensures forall o :: o in old(openFiles) && o.sub.live ==> o in openFiles
      ensures !old(IsValid(before)) ==>
        && pos == |old(fat)| && openFiles == old(openFiles)
        && Slots(fat) == AppendSlots(old(Slots(fat)), offFirstFile, n.lenHeader, n.storedSize)
      ensures n !in old(OpenEntries()) && old(Tracking()) ==> Tracking()
      ensures lenHeader == 0 && old(Tiled()) ==> Tiled()
    {
      ghost var vs, es, storeLen := Slots(fat), fat, |store|;
      ghost var tiled := Tiled();
      Accept(n, lenHeader);
      pos, moved := Enter(n, before);
      if lenHeader == 0 && tiled {
        InsertTiles(n, before, pos, vs, es, storeLen);
      }
    }

    /** List the accepted entry, then open its gap and tell the adapter. */
    method Enter(n: FatEntry, before: FatEntry?) returns (pos: nat, ghost moved: seq<bool>)
      requires Valid() && n.valid && n !in fat && n != before && (IsValid(before) ==> before in fat)
      requires IsValid(before) ==> n.index == before.index && n.offset == before.offset
      requires !IsValid(before) ==> n.Place() == Appended(Slots(fat), offFirstFile, n.lenHeader, n.storedSize)
      requires 0 <= DataStart(n.Place()) <= |store|
      modifies this`fat, this`hooks, this`openFiles, this`store, FatSet()`offset, FatSet()`index, Subs()`start
      ensures n.Place() == old(n.Place()) && n.valid
      ensures Valid() && pos <= |old(fat)| && fat == old(fat)[..pos] + [n] + old(fat)[pos..]
      ensures old(IsValid(before)) ==> pos < |old(fat)| && |moved| == |old(fat)|
      ensures store == InsertAt(old(store), DataStart(n.Place()), n.storedSize)
      ensures hooks == old(hooks) + (if old(IsValid(before)) then OffsetCalls(old(fat), moved, n.storedSize) else [])
        + [PostInsertFile(n, n.lenHeader, |store|)]
      ensures old(IsValid(before)) ==>
        && old(fat)[pos] == before && Slots(fat) == InsertSlots(old(Slots(fat)), pos, n.lenHeader, n.storedSize)
      ensures !old(IsValid(before)) ==>
        && pos == |old(fat)| && openFiles == old(openFiles)
        && Slots(fat) == AppendSlots(old(Slots(fat)), offFirstFile, n.lenHeader, n.storedSize)
      ensures forall o :: o in openFiles ==> o in old(openFiles)
      ensures forall o :: o in old(openFiles) && o.sub.live ==> o in openFiles
      ensures old(Tracking()) ==> Tracking()
    {
      pos, moved := Enlist(n, before);
      Fill(n);
    }

    /** The entry the adapter accepted gets its header length and becomes valid. */
    method Accept(n: FatEntry, lenHeader: nat)
      requires n !in fat
      modifies n`lenHeader, n`valid
      ensures n.valid && n.lenHeader == lenHeader && Slots(fat) == old(Slots(fat))
      ensures n !in OpenEntries() && old(Tracking()) ==> Tracking()
    {
      ghost var vs := Slots(fat);
      n.lenHeader := lenHeader;
      n.valid := true;
      assert forall k :: 0 <= k < |fat| ==> Slots(fat)[k] == vs[k];
    }

    /** The end of insert: a gap of the entry's size opens just after its header, and the
        adapter is told the entry is in. */
    method Fill(n: FatEntry)
      requires 0 <= DataStart(n.Place()) <= |store|
      modifies this`store, this`hooks
      ensures store == InsertAt(old(store), DataStart(n.Place()), n.storedSize)
      ensures hooks == old(hooks) + [PostInsertFile(n, n.lenHeader, |store|)]
      ensures old(Tracking()) ==> Tracking()
    {
      store := InsertAt(store, n.offset + n.lenHeader, n.storedSize);
      hooks := hooks + [PostInsertFile(n, n.lenHeader, |store|)];
    }

    /** Put a new valid entry into the vector: before `before` when that is a valid entry
        (after moving the others out of the way), at the end otherwise. */
    method Enlist(n: FatEntry, before: FatEntry?) returns (pos: nat, ghost moved: seq<bool>)
      requires Valid() && n.valid && n !in fat && n != before && (IsValid(before) ==> before in fat)
      requires IsValid(before) ==> n.index == before.index && n.offset == before.offset
      requires !IsValid(before) ==> n.Place() == Appended(Slots(fat), offFirstFile, n.lenHeader, n.storedSize)
      modifies this`fat, this`hooks, this`openFiles, FatSet()`offset, FatSet()`index, Subs()`start
      ensures Valid() && n.Place() == old(n.Place()) && IsValid(before) == old(IsValid(before))
      ensures pos <= |old(fat)| && fat == old(fat)[..pos] + [n] + old(fat)[pos..]
      ensures IsValid(before) ==>
        && pos < |old(fat)| && |moved| == |old(fat)| && old(fat)[pos] == before
        && Slots(fat) == InsertSlots(old(Slots(fat)), pos, n.lenHeader, n.storedSize)
        && hooks == old(hooks) + OffsetCalls(old(fat), moved, n.storedSize)
      ensures !IsValid(before) ==>
        && pos == |old(fat)| && openFiles == old(openFiles) && hooks == old(hooks)
        && Slots(fat) == AppendSlots(old(Slots(fat)), offFirstFile, n.lenHeader, n.storedSize)
      ensures forall o :: o in openFiles ==> o in old(openFiles)
      ensures forall o :: o in old(openFiles) && o.sub.live ==> o in openFiles
      ensures old(Tracking()) ==> Tracking()
    {
      if IsValid(before) {
        pos, moved := InsertMid(n, before);
      } else {
        pos := |fat|;
        moved := [];
        SpliceAt(n, pos);
      }
    }

    /** insert: create the entry, place it, let the adapter write its FAT entry (or refuse
        the name, leaving the archive untouched), mark it valid and add it. The adapter's
        choice is a parameter. */
    method Insert(before: FatEntry?, name: string, size: nat, compressed: bool, adapter: Adapter)
      returns (r: Result<FatEntry>, ghost created: FatEntry, ghost pos: nat, ghost moved: seq<bool>)
      requires Valid()
      requires IsValid(before) ==> before in fat
      requires adapter.Accepted? ==> 0 <= DataStart(NewPlace(before, adapter.lenHeader, size)) <= |store|
      modifies this`fat, this`hooks, this`openFiles, this`store, FatSet()`offset, FatSet()`index, Subs()`start
      ensures Valid() && fresh(created) && committed == old(committed)
      ensures created.name == name && created.storedSize == size && created.realSize == size
      ensures created.compressed == compressed && created.lenHeader == adapter.Header()
      ensures created.Place() == old(NewPlace(before, adapter.Header(), size))
      ensures adapter.Rejected? ==>
        && r == Failure(NameRejected) && !created.valid
        && fat == old(fat) && openFiles == old(openFiles) && store == old(store)
        && Slots(fat) == old(Slots(fat)) && (forall o :: o in openFiles ==> o.sub.start == old(o.sub.start))
        && hooks == old(hooks) + [PreInsertFile(if old(IsValid(before)) then before else null, created, false, created.index, created.offset, |old(store)|)]
      ensures adapter.Accepted? ==>
        && r == Success(created) && created.valid
        && pos <= |old(fat)| && fat == old(fat)[..pos] + [created] + old(fat)[pos..]
        && (old(IsValid(before)) ==> pos < |old(fat)| && |moved| == |old(fat)|)
        && store == InsertAt(old(store), DataStart(created.Place()), size)
        && hooks == old(hooks) + [PreInsertFile(if old(IsValid(before)) then before else null, created, false, created.index, created.offset, |old(store)|)]
             + (if old(IsValid(before)) then OffsetCalls(old(fat), moved, size) else [])
             + [PostInsertFile(created, created.lenHeader, |store|)]
      ensures adapter.Accepted? && old(IsValid(before)) ==>
        && old(fat)[pos] == before
        && Slots(fat) == InsertSlots(old(Slots(fat)), pos, created.lenHeader, size)
      ensures adapter.Accepted? && !old(IsValid(before)) ==>
        && pos == |old(fat)| && openFiles == old(openFiles)
        && Slots(fat) == AppendSlots(old(Slots(fat)), offFirstFile, created.lenHeader, size)
      ensures forall o :: o in openFiles ==> o in old(openFiles)
      ensures forall o :: o in old(openFiles) && o.sub.live ==> o in openFiles
      ensures old(Tracking()) ==> Tracking()
      ensures adapter == Accepted(0) && old(Tiled()) ==> Tiled()
    {
      var n := Propose(name, size, compressed, before);
      created := n;
      r, pos, moved := Admit(n, before, adapter);
    }

    /** What insert does once preInsertFile has seen the new entry: nothing more when the
        adapter refused it, otherwise the entry becomes valid and is added. */
    method Admit(n: FatEntry, before: FatEntry?, adapter: Adapter) returns (r: Result<FatEntry>, ghost pos: nat, ghost moved: seq<bool>)
      requires Valid() && n !in fat && n != before && n !in OpenEntries() && !n.valid && n.lenHeader == 0
      requires IsValid(before) ==> before in fat
      requires n.Place() == NewPlace(before, 0, n.storedSize)
      requires adapter.Accepted? ==> 0 <= DataStart(NewPlace(before, adapter.lenHeader, n.storedSize)) <= |store|
      modifies n`lenHeader, n`valid
      modifies this`fat, this`hooks, this`openFiles, this`store, FatSet()`offset, FatSet()`index, Subs()`start
      ensures Valid() && n.lenHeader == adapter.Header() && n.index == old(n.index) && n.offset == old(n.offset)
      ensures adapter.Rejected? ==>
        && r == Failure(NameRejected) && !n.valid
        && fat == old(fat) && openFiles == old(openFiles) && store == old(store) && hooks == old(hooks)
        && Slots(fat) == old(Slots(fat)) && (forall o :: o in openFiles ==> o.sub.start == old(o.sub.start))
      ensures adapter.Accepted? ==>
        && r == Success(n) && n.valid
        && pos <= |old(fat)| && fat == old(fat)[..pos] + [n] + old(fat)[pos..]
        && (old(IsValid(before)) ==> pos < |old(fat)| && |moved| == |old(fat)|)
        && store == InsertAt(old(store), DataStart(n.Place()), n.storedSize)
        && hooks == old(hooks) + (if old(IsValid(before)) then OffsetCalls(old(fat), moved, n.storedSize) else [])
             + [PostInsertFile(n, n.lenHeader, |store|)]
      ensures adapter.Accepted? && old(IsValid(before)) ==>
        && old(fat)[pos] == before
        && Slots(fat) == InsertSlots(old(Slots(fat)), pos, n.lenHeader, n.storedSize)
      ensures adapter.Accepted? && !old(IsValid(before)) ==>
        && pos == |old(fat)| && openFiles == old(openFiles)
        && Slots(fat) == AppendSlots(old(Slots(fat)), offFirstFile, n.lenHeader, n.storedSize)
      ensures forall o :: o in openFiles ==> o in old(openFiles)
      ensures forall o :: o in old(openFiles) && o.sub.live ==> o in openFiles
      ensures old(Tracking()) ==> Tracking()
      ensures adapter == Accepted(0) && old(Tiled()) ==> Tiled()
    {
      moved := [];
      pos := 0;
      match adapter
      case Rejected =>
        r := Failure(NameRejected);
      case Accepted(lenHeader) =>
        pos, moved := AddEntry(n, before, lenHeader);
        r := Success(n);
    }

    /** The layout half of an accepted, headerless insert: the new entry and the entries
        that were listed are valid, and the placements are the insert's or the append's,
        so the tiled layout of the archive before the insert stays tiled. */
    lemma InsertTiles(n: FatEntry, before: FatEntry?, pos: nat, vs: seq<Slot>, es: seq<FatEntry>, storeLen: int)
      requires n.valid && n.lenHeader == 0 && (forall e :: e in es ==> e.valid)
      requires Layout.Tiled(vs, offFirstFile, storeLen) && |store| == storeLen + n.storedSize
      requires pos <= |es| && fat == es[..pos] + [n] + es[pos..]
      requires IsValid(before) ==> pos < |vs| && Slots(fat) == InsertSlots(vs, pos, 0, n.storedSize)
      requires !IsValid(before) ==> Slots(fat) == AppendSlots(vs, offFirstFile, 0, n.storedSize)
      ensures Tiled()
    {
      if IsValid(before) {
        InsertKeepsTiled(vs, offFirstFile, storeLen, pos, n.storedSize);
      } else {
        AppendKeepsTiled(vs, offFirstFile, storeLen, n.storedSize);
      }
      forall e | e in fat
        ensures e.valid
      {
        assert e == n || e in es;
      }
    }

    /** remove: tell the adapter, take the entry out of the vector, move everything from
        its offset on back by its block length and down one index, delete its bytes, mark
        it invalid (its other fields keep their values) and tell the adapter it is gone. */
    method Remove(id: FatEntry) returns (ghost pos: nat, ghost moved: seq<bool>)
      requires Valid() && id.valid && id in fat
      requires 0 <= id.offset && End(id.Place()) <= |store|
      modifies this`fat, this`hooks, this`openFiles, this`store, id`valid
      modifies FatSet()`offset, FatSet()`index, Subs()`start
      ensures Valid() && pos < |old(fat)| && old(fat)[pos] == id
      ensures fat == old(fat)[..pos] + old(fat)[pos + 1..]
      ensures Slots(fat) == RemoveSlots(old(Slots(fat)), pos)
      ensures !id.valid && id.Place() == old(id.Place())
      ensures store == DeleteAt(old(store), id.offset, id.lenHeader + id.storedSize)
      ensures |moved| == |fat|
      ensures hooks == old(hooks) + [PreRemoveFile(id, true, |old(store)|)]
        + OffsetCalls(fat, moved, -(id.storedSize + id.lenHeader))
        + [PostRemoveFile(id, false, id.offset, id.storedSize, |store|)]
      ensures forall o :: o in openFiles ==> o in old(openFiles)
      ensures forall o :: o in old(openFiles) && o.sub.live ==> o in openFiles
      ensures old(Tiled()) && old(Tracking()) ==> Tracking()
      ensures old(Tiled()) ==> Tiled()
    {
      hooks := hooks + [PreRemoveFile(id, id.valid, |store|)];
      pos, moved := Drop(id);
    }

    /** Everything remove does after telling the adapter. */
    method Drop(id: FatEntry) returns (ghost pos: nat, ghost moved: seq<bool>)
      requires Valid() && id.valid && id in fat
      requires 0 <= id.offset && End(id.Place()) <= |store|
      modifies this`fat, this`hooks, this`openFiles, this`store, id`valid
      modifies FatSet()`offset, FatSet()`index, Subs()`start
      ensures Valid() && pos < |old(fat)| && old(fat)[pos] == id
      ensures fat == old(fat)[..pos] + old(fat)[pos + 1..]
      ensures Slots(fat) == RemoveSlots(old(Slots(fat)), pos)
      ensures !id.valid && id.Place() == old(id.Place())
      ensures store == DeleteAt(old(store), id.offset, id.lenHeader + id.storedSize)
      ensures |moved| == |fat|
      ensures hooks == old(hooks) + OffsetCalls(fat, moved, -(id.storedSize + id.lenHeader))
        + [PostRemoveFile(id, false, id.offset, id.storedSize, |store|)]
      ensures forall o :: o in openFiles ==> o in old(openFiles)
      ensures forall o :: o in old(openFiles) && o.sub.live ==> o in openFiles
      ensures old(Tiled()) && old(Tracking()) ==> Tracking()
      ensures old(Tiled()) ==> Tiled()
    {
      pos, moved := TakeOut(id);
      ghost var log := hooks;
      Discard(id, moved);
      assert hooks == log + [PostRemoveFile(id, false, id.offset, id.storedSize, |store|)];
    }

    /** The end of remove: the entry's bytes leave the archive, the entry is marked
        invalid and the adapter is told. */
    method Discard(id: FatEntry, ghost moved: seq<bool>)
      requires id !in fat && 0 <= id.offset && End(id.Place()) <= |store| && |moved| == |fat|
      modifies this`store, this`hooks, id`valid
      ensures !id.valid && id.Place() == old(id.Place()) && Slots(fat) == old(Slots(fat))
      ensures store == DeleteAt(old(store), id.offset, id.lenHeader + id.storedSize)
      ensures hooks == old(hooks) + [PostRemoveFile(id, false, id.offset, id.storedSize, |store|)]
      ensures OffsetCalls(fat, moved, -(id.storedSize + id.lenHeader)) == old(OffsetCalls(fat, moved, -(id.storedSize + id.lenHeader)))
      ensures old(StartsTrack(id)) && old(SizesTrack(null)) ==> Tracking()
      ensures old(Sound()) && old(Layout.Tiled(Slots(fat), offFirstFile, |store| - (id.storedSize + id.lenHeader))) ==> Tiled()
    {
      store := DeleteAt(store, id.offset, id.storedSize + id.lenHeader);
      Invalidate(id);
      hooks := hooks + [PostRemoveFile(id, id.valid, id.offset, id.storedSize, |store|)];
    }

    /** id->bValid = false, for an entry that has left the vector. */
    method Invalidate(id: FatEntry)
      requires id !in fat
      modifies id`valid
      ensures !id.valid && Slots(fat) == old(Slots(fat))
      ensures old(StartsTrack(id)) ==> StartsTrack(null)
      ensures old(SizesTrack(null)) ==> SizesTrack(null)
    {
      ghost var vs := Slots(fat);
      id.valid := false;
      assert forall k :: 0 <= k < |fat| ==> Slots(fat)[k] == vs[k];
    }

    /** The vector part of remove: erase the entry, then shift the rest back with the
        erased (still valid) entry as the skip entry. */
    method TakeOut(id: FatEntry) returns (pos: nat, ghost moved: seq<bool>)
      requires Valid() && id.valid && id in fat
      modifies this`fat, this`hooks, this`openFiles, FatSet()`offset, FatSet()`index, Subs()`start
      ensures Valid() && pos < |old(fat)| && old(fat)[pos] == id
      ensures fat == old(fat)[..pos] + old(fat)[pos + 1..]
      ensures id !in fat && id.Place() == old(id.Place())
      ensures Slots(fat) == RemoveSlots(old(Slots(fat)), pos)
      ensures |moved| == |fat| && hooks == old(hooks) + OffsetCalls(fat, moved, -(id.storedSize + id.lenHeader))
      ensures forall o :: o in openFiles ==> o in old(openFiles)
      ensures forall o :: o in old(openFiles) && o.sub.live ==> o in openFiles
      ensures old(SizesTrack(null)) ==> SizesTrack(null)
      ensures old(Tiled()) && old(StartsTrack(null)) ==> StartsTrack(id)
      ensures old(Tiled()) ==> Sound() && Layout.Tiled(Slots(fat), offFirstFile, |store| - (id.storedSize + id.lenHeader))
    {
      pos := IndexOf(fat, id);
      ghost var vs := Slots(fat);
      ghost var d := vs[pos];
      assert d == id.Place();
      Erase(pos);
      moved := CloseGap(id, vs, pos, |store|);
    }

    /** The shift of a remove, and what it does to the windows: when the table before the
        erase (vs, with the removed entry at p) was tiled, every window that tracked its
        entry, other than those on the removed entry, still does. */
    method CloseGap(id: FatEntry, ghost vs: seq<Slot>, ghost p: nat, ghost storeLen: int) returns (ghost moved: seq<bool>)
      requires Valid() && id.valid && id !in fat
      requires p < |vs| && vs[p] == id.Place() && Slots(fat) == vs[..p] + vs[p + 1..]
      modifies this`hooks, this`openFiles, FatSet()`offset, FatSet()`index, Subs()`start
      ensures Valid() && fat == old(fat) && id.Place() == vs[p]
      ensures Slots(fat) == RemoveSlots(vs, p)
      ensures |moved| == |fat| && hooks == old(hooks) + OffsetCalls(fat, moved, -(id.storedSize + id.lenHeader))
      ensures forall o :: o in openFiles ==> o in old(openFiles)
      ensures forall o :: o in old(openFiles) && o.sub.live ==> o in openFiles
      ensures old(SizesTrack(null)) ==> SizesTrack(null)
      ensures Layout.Tiled(vs, offFirstFile, storeLen) && old(StartsTrack(id)) ==> StartsTrack(id)
      ensures Layout.Tiled(vs, offFirstFile, storeLen) ==>
        Layout.Tiled(Slots(fat), offFirstFile, storeLen - (id.storedSize + id.lenHeader))
      ensures Sound() == old(Sound())
    {
      ghost var us := Slots(fat);
      ghost var d := vs[p];
      moved := ShiftBack(id, d);
      RemoveIsShiftOfErased(vs, p, us);
      if Layout.Tiled(vs, offFirstFile, storeLen) {
        GapTiles(id, vs, p, storeLen);
      }
    }

    /** The layout half of a remove's shift: when the layout before the erase was tiled,
        the shifted layout is tiled in the shrunk archive, and the window pass, testing
        the moved entries, picks the entries the entry pass moved. */
    lemma GapTiles(id: FatEntry, vs: seq<Slot>, p: nat, storeLen: int)
      requires id.valid && id !in fat && p < |vs| && vs[p] == id.Place()
      requires Layout.Tiled(vs, offFirstFile, storeLen) && Slots(fat) == RemoveSlots(vs, p)
      ensures Layout.Tiled(Slots(fat), offFirstFile, storeLen - (id.storedSize + id.lenHeader))
      ensures InRangeFlags(fat, id.offset, id) == PassFlags(vs[..p] + vs[p + 1..], id.offset, id.Place())
    {
      RemoveKeepsTiled(vs, offFirstFile, storeLen, p);
      InRangeOthers(fat, id.offset, id);
      RemoveKeepsFlags(vs, offFirstFile, storeLen, p);
    }

    /** shiftFiles as remove calls it: with the erased (still valid) entry as the skip
        entry, everything from its offset on moves back by its block length and down one
        index. */
    method ShiftBack(id: FatEntry, ghost d: Slot) returns (ghost moved: seq<bool>)
      requires Valid() && id.valid && id !in fat && d == id.Place()
      modifies this`hooks, this`openFiles, FatSet()`offset, FatSet()`index, Subs()`start
      ensures Valid() && fat == old(fat) && id.Place() == d
      ensures Slots(fat) == ShiftSlots(old(Slots(fat)), d.offset, -(d.storedSize + d.lenHeader), -1, d)
      ensures |moved| == |fat| && hooks == old(hooks) + OffsetCalls(fat, moved, -(id.storedSize + id.lenHeader))
      ensures moved == PassFlags(old(Slots(fat)), d.offset, d)
      ensures forall o :: o in openFiles ==> o in old(openFiles)
      ensures forall o :: o in old(openFiles) && o.sub.live ==> o in openFiles
      ensures old(SizesTrack(null)) ==> SizesTrack(null)
      ensures old(StartsTrack(id)) && InRangeFlags(fat, d.offset, id) == moved ==> StartsTrack(id)
    {
      ghost var us := Slots(fat);
      var offStart := id.offset;
      InRangeOthers(fat, offStart, id);
      ghost var flags := PassFlags(us, offStart, d);
      ShiftIsBumpWhere(us, flags, d.offset, -(d.storedSize + d.lenHeader), -1, d);
      ghost var dirty;
      moved, dirty := ShiftFiles(id, offStart, -(id.storedSize + id.lenHeader), -1, id, null);
      assert moved == flags;
    }

    /** vcFAT.erase(it): the entry at pos leaves the vector. */
    method Erase(pos: nat)
      requires Valid() && pos < |fat|
      modifies this`fat
      ensures Valid() && fat == old(fat)[..pos] + old(fat)[pos + 1..] && old(fat)[pos] !in fat
      ensures Slots(fat) == old(Slots(fat))[..pos] + old(Slots(fat))[pos + 1..]
      ensures old(StartsTrack(null)) ==> StartsTrack(old(fat)[pos])
      ensures old(Sound()) ==> Sound()
    {
      DistinctErase(fat, pos);
      ghost var gone := fat[pos];
      fat := fat[..pos] + fat[pos + 1..];
      assert forall k :: 0 <= k < |fat| ==> fat[k] == old(fat)[if k < pos then k else k + 1];
    }

    /** resize(id, newStored, newReal): record the real size; if the stored size changes,
        open or close the difference in the archive bytes (at the old end of the data when
        growing, at the new end when shrinking), record the new stored size, tell the
        adapter, move everything after the edit point by the difference without changing
        any index, and give each live stream on the entry the new size. */
    method Resize(id: FatEntry, newStored: nat, newReal: nat) returns (ghost pos: nat, ghost moved: seq<bool>)
      requires Valid() && id.valid && id in fat
      requires 0 <= DataStart(id.Place()) && End(id.Place()) <= |store|
      modifies this`hooks, this`openFiles, this`store, id`storedSize, id`realSize
      modifies FatSet()`offset, FatSet()`index, Subs()`start, Subs()`size
      ensures Valid() && fat == old(fat) && pos < |fat| && fat[pos] == id
      ensures id.realSize == newReal && id.storedSize == newStored
      ensures id.offset == old(id.offset) && id.index == old(id.index)
      ensures Slots(fat) == ResizeSlots(old(Slots(fat)), pos, newStored)
      ensures newStored == old(id.storedSize) ==>
        && store == old(store) && hooks == old(hooks) && openFiles == old(openFiles)
        && (forall o :: o in openFiles ==> o.sub.start == old(o.sub.start) && o.sub.size == old(o.sub.size))
      ensures newStored > old(id.storedSize) ==>
        store == InsertAt(old(store), old(End(id.Place())), newStored - old(id.storedSize))
      ensures newStored < old(id.storedSize) ==>
        store == DeleteAt(old(store), old(DataStart(id.Place())) + newStored, old(id.storedSize) - newStored)
      ensures newStored != old(id.storedSize) ==>
        && |moved| == |fat|
        && hooks == old(hooks) + [UpdateFileSize(id, newStored, newStored - old(id.storedSize))]
             + OffsetCalls(fat, moved, newStored - old(id.storedSize))
        && (forall o :: o in old(openFiles) && o.entry == id && o.sub.live ==> o.sub.size == newStored)
        && (forall o :: o in old(openFiles) && !(o.entry == id && o.sub.live) ==> o.sub.size == old(o.sub.size))
      ensures forall o :: o in openFiles ==> o in old(openFiles)
      ensures forall o :: o in old(openFiles) && o.sub.live ==> o in openFiles
      ensures old(Tiled()) && old(Tracking()) ==> Tracking()
      ensures old(Tiled()) ==> Tiled()
    {
      pos :| 0 <= pos < |fat| && fat[pos] == id;
      SetReal(id, newReal);
      if newStored == id.storedSize {
        moved := [];
        return;
      }
      moved := ResizeStored(id, pos, newStored);
    }

    /** The part of resize after the real size is recorded, when the stored size changes:
        edit the bytes, then record the size and move what follows. */
    method ResizeStored(id: FatEntry, ghost pos: nat, newStored: nat) returns (ghost moved: seq<bool>)
      requires Valid() && pos < |fat| && fat[pos] == id && id.valid && newStored != id.storedSize
      requires 0 <= DataStart(id.Place()) && End(id.Place()) <= |store|
      modifies this`hooks, this`openFiles, this`store, id`storedSize
      modifies FatSet()`offset, FatSet()`index, Subs()`start, Subs()`size
      ensures Valid() && fat == old(fat) && id.storedSize == newStored
      ensures id.offset == old(id.offset) && id.index == old(id.index)
      ensures Slots(fat) == ResizeSlots(old(Slots(fat)), pos, newStored)
      ensures newStored > old(id.storedSize) ==>
        store == InsertAt(old(store), old(End(id.Place())), newStored - old(id.storedSize))
      ensures newStored < old(id.storedSize) ==>
        store == DeleteAt(old(store), old(DataStart(id.Place())) + newStored, old(id.storedSize) - newStored)
      ensures |moved| == |fat|
      ensures hooks == old(hooks) + [UpdateFileSize(id, newStored, newStored - old(id.storedSize))]
        + OffsetCalls(fat, moved, newStored - old(id.storedSize))
      ensures forall o :: o in old(openFiles) && o.entry == id && o.sub.live ==> o.sub.size == newStored
      ensures forall o :: o in old(openFiles) && !(o.entry == id && o.sub.live) ==> o.sub.size == old(o.sub.size)
      ensures forall o :: o in openFiles ==> o in old(openFiles)
      ensures forall o :: o in old(openFiles) && o.sub.live ==> o in openFiles
      ensures old(Tiled()) && old(Tracking()) ==> Tracking()
      ensures old(Tiled()) ==> Tiled()
    {
      ghost var storeLen, vs, tiled := |store|, Slots(fat), Tiled();
      assert tiled ==> Layout.Tiled(vs, offFirstFile, storeLen);
      EditBytes(id, newStored);
      ghost var bytes := store;
      moved := ChangeStored(id, pos, newStored, storeLen);
      assert store == bytes;
      if tiled {
        ResizeTiles(vs, pos, newStored, storeLen);
      }
    }

    /** The layout half of resize: the placements are the resize's, the archive length has
        changed by the size difference, and every entry is still valid, so a tiled layout
        stays tiled. */
    lemma ResizeTiles(vs: seq<Slot>, pos: nat, newStored: nat, storeLen: int)
      requires Layout.Tiled(vs, offFirstFile, storeLen) && pos < |vs| && Sound()
      requires Slots(fat) == ResizeSlots(vs, pos, newStored) && |store| == storeLen + (newStored - vs[pos].storedSize)
      ensures Tiled()
    {
      ResizeKeepsTiled(vs, offFirstFile, storeLen, pos, newStored);
    }

    /** Record the real (decompressed) size; no placement changes. */
    method SetReal(id: FatEntry, newReal: nat)
      modifies id`realSize
      ensures id.realSize == newReal && id.Place() == old(id.Place()) && Slots(fat) == old(Slots(fat))
      ensures Tiled() == old(Tiled()) && Tracking() == old(Tracking())
    {
      ghost var vs := Slots(fat);
      id.realSize := newReal;
      assert forall k :: 0 <= k < |fat| ==> Slots(fat)[k] == vs[k];
    }

    /** The part of resize that runs when the stored size changes. */
    method ChangeStored(id: FatEntry, ghost pos: nat, newStored: nat, ghost storeLen: int) returns (ghost moved: seq<bool>)
      requires Valid() && pos < |fat| && fat[pos] == id && id.valid && newStored != id.storedSize
      modifies this`hooks, this`openFiles, id`storedSize
      modifies FatSet()`offset, FatSet()`index, Subs()`start, Subs()`size
      ensures Valid() && fat == old(fat) && id.storedSize == newStored
      ensures id.offset == old(id.offset) && id.index == old(id.index)
      ensures Slots(fat) == ResizeSlots(old(Slots(fat)), pos, newStored)
      ensures |moved| == |fat|
      ensures hooks == old(hooks) + [UpdateFileSize(id, newStored, newStored - old(id.storedSize))]
        + OffsetCalls(fat, moved, newStored - old(id.storedSize))
      ensures forall o :: o in old(openFiles) && o.entry == id && o.sub.live ==> o.sub.size == newStored
      ensures forall o :: o in old(openFiles) && !(o.entry == id && o.sub.live) ==> o.sub.size == old(o.sub.size)
      ensures forall o :: o in openFiles ==> o in old(openFiles)
      ensures forall o :: o in old(openFiles) && o.sub.live ==> o in openFiles
      ensures Layout.Tiled(old(Slots(fat)), offFirstFile, storeLen) && old(Tracking()) ==> Tracking()
      ensures Sound() == old(Sound())
    {
      var start := ResizeStart(id.Place(), newStored);
      ghost var table := openFiles;
      ghost var delta := newStored - id.storedSize;
      ghost var log := hooks + [UpdateFileSize(id, newStored, delta)];
      moved := Regrow(id, pos, newStored, start, storeLen);
      ghost var calls := OffsetCalls(fat, moved, delta);
      assert hooks == log + calls;
      Rewindow(id, newStored, table);
      assert OffsetCalls(fat, moved, delta) == calls;
    }

    /** The byte part of a resize: open the difference in zero bytes at the old end of the
        data when growing, or close it at the new end when shrinking. */
    method EditBytes(id: FatEntry, newStored: nat)
      requires 0 <= DataStart(id.Place()) && End(id.Place()) <= |store| && newStored != id.storedSize
      modifies this`store
      ensures Tracking() == old(Tracking()) && |store| == |old(store)| + (newStored - id.storedSize)
      ensures newStored > id.storedSize ==>
        store == InsertAt(old(store), End(id.Place()), newStored - id.storedSize)
      ensures newStored < id.storedSize ==>
        store == DeleteAt(old(store), DataStart(id.Place()) + newStored, id.storedSize - newStored)
    {
      var delta := newStored - id.storedSize;
      var start := ResizeStart(id.Place(), newStored);
      if delta > 0 {
        store := InsertAt(store, start, delta);
      } else {
        store := DeleteAt(store, start, -delta);
      }
    }

    /** The window part of a resize: every live stream on the entry gets the new size, and
        every other stream of the table the resize started from keeps its size, including
        those the cleanup dropped. */
    method Rewindow(id: FatEntry, newSize: nat, ghost table: seq<OpenFile>)
      requires Valid() && DistinctSubs(table)
      requires forall o :: o in openFiles ==> o in table
      requires forall o :: o in table && o.sub.live ==> o in openFiles
      modifies Subs()`size
      ensures forall o :: o in table && o.entry == id && o.sub.live ==> o.sub.size == newSize
      ensures forall o :: o in table && !(o.entry == id && o.sub.live) ==> o.sub.size == old(o.sub.size)
      ensures old(StartsTrack(null)) ==> StartsTrack(null)
      ensures old(SizesTrack(id)) && id.storedSize == newSize ==> SizesTrack(null)
    {
      ResizeWindows(id, newSize);
      forall o | o in table && !(o.entry == id && o.sub.live) && o !in openFiles
        ensures o.sub.size == old(o.sub.size)
      {
        DroppedStreamUntouched(table, openFiles, o);
      }
    }

    /** The entry part of a resize that changes the stored size: record it, tell the
        adapter, and shift what comes after the edit point; the table keeps its live
        streams and gains none. */
    method Regrow(id: FatEntry, ghost pos: nat, newStored: nat, start: int, ghost storeLen: int) returns (ghost moved: seq<bool>)
      requires Valid() && pos < |fat| && fat[pos] == id && id.valid
      requires newStored != id.storedSize && start == ResizeStart(id.Place(), newStored)
      modifies this`hooks, this`openFiles, id`storedSize, FatSet()`offset, FatSet()`index, Subs()`start
      ensures Valid() && fat == old(fat) && id.storedSize == newStored
      ensures id.offset == old(id.offset) && id.index == old(id.index)
      ensures Slots(fat) == ResizeSlots(old(Slots(fat)), pos, newStored)
      ensures |moved| == |fat|
      ensures hooks == old(hooks) + [UpdateFileSize(id, newStored, newStored - old(id.storedSize))]
        + OffsetCalls(fat, moved, newStored - old(id.storedSize))
      ensures forall o :: o in openFiles ==> o in old(openFiles)
      ensures forall o :: o in old(openFiles) && o.sub.live ==> o in openFiles
      ensures Layout.Tiled(old(Slots(fat)), offFirstFile, storeLen) && old(StartsTrack(null)) ==> StartsTrack(null)
      ensures old(SizesTrack(null)) ==> SizesTrack(id)
    {
      ghost var vs := Slots(fat);
      ghost var target := ResizeSlots(vs, pos, newStored);
      var delta := newStored - id.storedSize;
      SetStored(id, pos, newStored);
      ghost var calls := hooks;
      moved := ShiftAfterResize(id, pos, vs, newStored, start, delta, storeLen);
      assert Slots(fat) == target;
      assert hooks == calls + OffsetCalls(fat, moved, delta);
    }

    /** pFAT->iSize = iNewSize followed by updateFileSize, which sees the new size. */
    method SetStored(id: FatEntry, ghost pos: nat, newStored: nat)
      requires Valid() && pos < |fat| && fat[pos] == id
      modifies this`hooks, id`storedSize
      ensures Valid() && id.storedSize == newStored
      ensures Slots(fat) == old(Slots(fat))[pos := old(id.Place()).(storedSize := newStored)]
      ensures hooks == old(hooks) + [UpdateFileSize(id, newStored, newStored - old(id.storedSize))]
      ensures old(StartsTrack(null)) ==> StartsTrack(null)
      ensures old(SizesTrack(null)) ==> SizesTrack(id)
    {
      ghost var vs := Slots(fat);
      forall k | 0 <= k < |fat| && k != pos
        ensures fat[k] != id
      {
        DistinctAt(fat, k, pos);
      }
      var delta := newStored - id.storedSize;
      id.storedSize := newStored;
      hooks := hooks + [UpdateFileSize(id, id.storedSize, delta)];
      assert Slots(fat) == vs[pos := vs[pos].(storedSize := newStored)];
    }

    /** The shift of a resize: with the resized entry as the skip entry, what starts at or
        after the edit point moves by the size difference and keeps its index; in a tiled
        layout the window pass finds in range exactly the entries the entry pass moved, so
        every window still starts at its entry's data. */
    method ShiftAfterResize(id: FatEntry, ghost pos: nat, ghost vs: seq<Slot>, newStored: nat, start: int, delta: int,
                            ghost storeLen: int)
        returns (ghost moved: seq<bool>)
      requires Valid() && pos < |vs| && pos < |fat| && fat[pos] == id && id.valid
      requires newStored != vs[pos].storedSize && delta == newStored - vs[pos].storedSize
      requires start == ResizeStart(vs[pos], newStored)
      requires Slots(fat) == vs[pos := vs[pos].(storedSize := newStored)]
      modifies this`hooks, this`openFiles, FatSet()`offset, FatSet()`index, Subs()`start
      ensures Valid() && fat == old(fat) && |moved| == |fat|
      ensures id.offset == old(id.offset) && id.index == old(id.index)
      ensures Slots(fat) == ResizeSlots(vs, pos, newStored)
      ensures hooks == old(hooks) + OffsetCalls(fat, moved, delta)
      ensures forall o :: o in openFiles ==> o in old(openFiles)
      ensures forall o :: o in old(openFiles) && o.sub.live ==> o in openFiles
      ensures Layout.Tiled(vs, offFirstFile, storeLen) && old(StartsTrack(null)) ==> StartsTrack(null)
      ensures old(SizesTrack(id)) ==> SizesTrack(id)
    {
      moved := ShiftSkipping(id, pos, vs, newStored, start, delta);
      if Layout.Tiled(vs, offFirstFile, storeLen) {
        InRangeMember(fat, start, pos);
        Layout.ResizeKeepsFlags(vs, offFirstFile, storeLen, pos, newStored);
      }
    }

    /** shiftFiles as resize calls it, in terms of the layout before the shift. */
    method ShiftSkipping(id: FatEntry, ghost pos: nat, ghost vs: seq<Slot>, newStored: nat, start: int, delta: int)
        returns (ghost moved: seq<bool>)
      requires Valid() && pos < |vs| && pos < |fat| && fat[pos] == id && id.valid
      requires newStored != vs[pos].storedSize && delta == newStored - vs[pos].storedSize
      requires start == ResizeStart(vs[pos], newStored)
      requires Slots(fat) == vs[pos := vs[pos].(storedSize := newStored)]
      modifies this`hooks, this`openFiles, FatSet()`offset, FatSet()`index, Subs()`start
      ensures Valid() && fat == old(fat) && |moved| == |fat|
      ensures moved == PassFlags(vs, start, vs[pos])[pos := false]
      ensures id.offset == old(id.offset) && id.index == old(id.index)
      ensures Slots(fat) == ResizeSlots(vs, pos, newStored)
      ensures hooks == old(hooks) + OffsetCalls(fat, moved, delta)
      ensures forall o :: o in openFiles ==> o in old(openFiles)
      ensures forall o :: o in old(openFiles) && o.sub.live ==> o in openFiles
      ensures old(StartsTrack(null)) && InRangeFlags(fat, start, id) == moved ==> StartsTrack(null)
      ensures old(SizesTrack(id)) ==> SizesTrack(id)
    {
      ghost var us := Slots(fat);
      ghost var table := openFiles;
      InRangeMember(fat, start, pos);
      Layout.ResizeFlagsIgnoreSize(vs, start, pos, newStored);
      ghost var dirty;
      moved, dirty := ShiftFiles(id, start, delta, 0, null, id);
      assert Slots(fat) == BumpWhere(us, moved, delta, 0);
      assert Slots(fat)[pos] == us[pos];
      ResizeIsBumpWhere(vs, pos, newStored, moved);
    }

    /** The last loop of resize: every live stream on the entry gets the new size. */
    method ResizeWindows(id: FatEntry, newSize: nat)
      requires Valid()
      modifies Subs()`size
      ensures forall o :: o in openFiles ==>
        o.sub.size == if o.entry == id && o.sub.live then newSize else old(o.sub.size)
    {
      var j := 0;
      while j < |openFiles|
        invariant 0 <= j <= |openFiles|
        invariant forall k :: 0 <= k < j ==>
          openFiles[k].sub.size == if openFiles[k].entry == id && openFiles[k].sub.live then newSize else old(openFiles[k].sub.size)
        invariant forall k :: j <= k < |openFiles| ==> openFiles[k].sub.size == old(openFiles[k].sub.size)
      {
        var o := openFiles[j];
        forall k | 0 <= k < |openFiles| && k != j
          ensures openFiles[k].sub != o.sub
        {
          DistinctSubsAt(openFiles, k, j);
        }
        if o.entry == id && o.sub.live {
          o.sub.SetSize(newSize);
        }
        j := j + 1;
      }
      forall o | o in openFiles
        ensures o.sub.size == if o.entry == id && o.sub.live then newSize else old(o.sub.size)
      {
        var k :| 0 <= k < |openFiles| && openFiles[k] == o;
      }
    }

    /** open: a stream over the entry's data, registered in the open-file table. */
    method Open(id: FatEntry) returns (sub: SubStream)
      requires Valid()
      modifies this`openFiles
      ensures fresh(sub) && sub.live && sub.start == DataStart(id.Place()) && sub.size == id.storedSize
      ensures openFiles == old(openFiles) + [OpenFile(id, sub)]
      ensures Valid()
      ensures old(Tracking()) && (id.valid ==> id in fat) ==> Tracking()
    {
      sub := new SubStream(id.offset + id.lenHeader, id.storedSize);
      AddKeepsDistinct(openFiles, OpenFile(id, sub));
      openFiles := openFiles + [OpenFile(id, sub)];
    }

    /** find: the first entry of the vector whose name matches, ignoring case. */
    method Find(name: string) returns (r: FatEntry?)
      ensures r == null <==> forall k :: 0 <= k < |fat| ==> !IEquals(fat[k].name, name)
      ensures r != null ==> exists p :: 0 <= p < |fat| && fat[p] == r && IEquals(r.name, name)
                                         && (forall k :: 0 <= k < p ==> !IEquals(fat[k].name, name))
    {
      var i := 0;
      while i < |fat|
        invariant 0 <= i <= |fat|
        invariant forall k :: 0 <= k < i ==> !IEquals(fat[k].name, name)
      {
        if IEquals(fat[i].name, name) {
          return fat[i];
        }
        i := i + 1;
      }
      return null;
    }

    /** entryPtrFromStream: the first entry of the vector whose data starts at or after the
        stream's window start. */
    method EntryPtrFromStream(sub: SubStream) returns (r: FatEntry?)
      ensures r == null <==> forall k :: 0 <= k < |fat| ==> DataStart(fat[k].Place()) < sub.start
      ensures r != null ==> 0 <= FirstFrom(Slots(fat), sub.start) < |fat| && r == fat[FirstFrom(Slots(fat), sub.start)]
    {
      var i := 0;
      while i < |fat|
        invariant 0 <= i <= |fat|
        invariant forall k :: 0 <= k < i ==> DataStart(fat[k].Place()) < sub.start
      {
        if fat[i].offset + fat[i].lenHeader >= sub.start {
          FirstFromIs(Slots(fat), sub.start, i);
          return fat[i];
        }
        i := i + 1;
      }
      return null;
    }

    /** flush: commit the archive's bytes to the underlying file. */
    method Flush()
      modifies this`committed
      ensures committed == store
    {
      committed := store;
    }

    /** cleanOpenSubstreams: repeatedly drop the first expired stream until none is left. */
    method CleanOpenSubstreams()
      requires Valid()
      modifies this`openFiles
      ensures Valid()
      ensures openFiles == LiveOnly(old(openFiles))
    {
      var clean := false;
      while !clean
        invariant Valid()
        invariant LiveOnly(openFiles) == LiveOnly(old(openFiles))
        invariant clean ==> forall k :: 0 <= k < |openFiles| ==> openFiles[k].sub.live
        decreases |openFiles| + (if clean then 0 else 1)
      {
        clean := true;
        // the search for the first expired stream
        var i := 0;
        while i < |openFiles| && openFiles[i].sub.live
          invariant 0 <= i <= |openFiles|
          invariant forall k :: 0 <= k < i ==> openFiles[k].sub.live
        {
          i := i + 1;
        }
        if i < |openFiles| {
          LiveOnlyDropsExpired(openFiles, i);
          DropKeepsDistinct(openFiles, i);
          openFiles := openFiles[..i] + openFiles[i + 1..];
          clean := false;
        }
      }
      LiveOnlyKeepsAllLive(openFiles);
    }
  }
}
