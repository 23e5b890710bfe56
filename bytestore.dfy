/** The archive's underlying byte container (segmented_stream): a byte sequence that
    supports opening a zero-filled gap and deleting a run of bytes at a position,
    shifting everything after the edit point. */
module ByteStore {

  newtype byte = x: int | 0 <= x < 256

  /** n zero bytes. */
  function Zeros(n: nat): (r: seq<byte>)
    ensures |r| == n
    ensures forall k :: 0 <= k < n ==> r[k] == 0
  {
    if n == 0 then [] else Zeros(n - 1) + [0]
  }

  /** insert(n) after seekp(pos): a gap of n zero bytes opens at pos; the bytes before pos
      stay where they are and the bytes from pos on move forward by n. */
  function InsertAt(s: seq<byte>, pos: int, n: nat): (r: seq<byte>)
    requires 0 <= pos <= |s|
    ensures |r| == |s| + n
    ensures r[..pos] == s[..pos]
    ensures forall k :: pos <= k < pos + n ==> r[k] == 0
    ensures r[pos + n..] == s[pos..]
  {
    s[..pos] + Zeros(n) + s[pos..]
  }

  /** remove(n) after seekp(pos): the n bytes starting at pos disappear and the bytes after
      them move back by n. */
  function DeleteAt(s: seq<byte>, pos: int, n: nat): (r: seq<byte>)
    requires 0 <= pos && pos + n <= |s|
    ensures |r| == |s| - n
    ensures r[..pos] == s[..pos]
    ensures r[pos..] == s[pos + n..]
  {
    s[..pos] + s[pos + n..]
  }

  /** Deleting the gap that an insert opened gives back the original bytes. */
  lemma DeleteUndoesInsert(s: seq<byte>, pos: int, n: nat)
    requires 0 <= pos <= |s|
    ensures DeleteAt(InsertAt(s, pos, n), pos, n) == s
  {
    var t := InsertAt(s, pos, n);
    var u := DeleteAt(t, pos, n);
    assert u[..pos] == s[..pos];
    assert u[pos..] == s[pos..];
    assert u == u[..pos] + u[pos..];
    assert s == s[..pos] + s[pos..];
  }

  /** A byte that lies before the edit point keeps its position; a byte at or after it is
      found n positions further on. */
  lemma InsertMovesTail(s: seq<byte>, pos: int, n: nat, k: int)
    requires 0 <= pos <= |s| && 0 <= k < |s|
    ensures k < pos ==> InsertAt(s, pos, n)[k] == s[k]
    ensures pos <= k ==> InsertAt(s, pos, n)[k + n] == s[k]
  {
    var r := InsertAt(s, pos, n);
    if k < pos {
      assert r[..pos][k] == s[..pos][k];
    } else {
      assert r[pos + n..][k - pos] == s[pos..][k - pos];
    }
  }
}
