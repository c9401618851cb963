/**
 * A store of b cells seen through a mapping of 2 * b bytes whose second half
 * aliases the first: logical offset o, for 0 <= o < 2 * b, reaches cell o % b.
 * The double-mapped buffer exposes exactly this view; the copy-based buffer
 * reaches the same cells with its explicit two-part split.
 */
module Circular {
  import opened Bytes
  import opened ModArith

  /** The cell that logical offset o reaches. */
  function Cell(o: int, b: int): (c: int)
    requires 0 <= o < 2 * b
    ensures 0 <= c < b
    ensures c == o % b
  {
    ModTwoHalves(o, b);
    if o < b then o else o - b
  }

  /** How many bytes past offset o a transfer must go to reach cell c. */
  function Distance(o: int, c: int, b: int): (j: int)
    requires 0 <= o < 2 * b && 0 <= c < b
    ensures 0 <= j < b
    ensures j == (c - o) % b
  {
    var start := Cell(o, b);
    var j := if start <= c then c - start else c - start + b;
    var q := (if o < b then 0 else -1) + (if start <= c then 0 else -1);
    ModUnique(c - o, b, q, j);
    j
  }

  /** The cells after `d` is copied into the mapping at offset o; as |d| <= |s|, no cell is written twice. */
  function WriteAt(s: seq<byte>, o: int, d: seq<byte>): (t: seq<byte>)
    requires 0 <= o < 2 * |s| && |d| <= |s|
    ensures |t| == |s|
  {
    seq(|s|, c requires 0 <= c < |s| =>
      if Distance(o, c, |s|) < |d| then d[Distance(o, c, |s|)] else s[c])
  }

  /** The n bytes seen through the mapping from offset o on. */
  function ReadAt(s: seq<byte>, o: int, n: nat): (t: seq<byte>)
    requires 0 <= o && o + n <= 2 * |s|
    ensures |t| == n
  {
    seq(n, j requires 0 <= j < n => s[Cell(o + j, |s|)])
  }

  lemma DistanceToCell(o: int, j: int, b: int)
    requires 0 <= o && 0 <= j < b && o + j < 2 * b
    ensures Distance(o, Cell(o + j, b), b) == j
  {
  }

  /** Cell c lies k bytes past offset o when c - o is k plus a whole number of stores. */
  lemma DistanceIs(o: int, c: int, b: int, q: int, k: int)
    requires 0 <= o < 2 * b && 0 <= c < b && 0 <= k < b && c - o == q * b + k
    ensures Distance(o, c, b) == k
  {
    ModUnique(c - o, b, q, k);
  }

  /** Bytes copied in at offset o are read back unchanged from offset o. */
  lemma ReadBack(s: seq<byte>, o: int, d: seq<byte>)
    requires 0 <= o < 2 * |s| && o + |d| <= 2 * |s| && |d| <= |s|
    ensures ReadAt(WriteAt(s, o, d), o, |d|) == d
  {
    forall j | 0 <= j < |d|
      ensures ReadAt(WriteAt(s, o, d), o, |d|)[j] == d[j]
    {
      DistanceToCell(o, j, |s|);
    }
  }

  /** A copy that ends at least a whole store before offset r + |s| leaves the n bytes from r alone. */
  lemma ReadUntouched(s: seq<byte>, w: int, d: seq<byte>, r: int, n: nat)
    requires 0 <= r && r + n <= w < 2 * |s| && w + |d| <= r + |s|
    ensures ReadAt(WriteAt(s, w, d), r, n) == ReadAt(s, r, n)
  {
    forall j | 0 <= j < n
      ensures ReadAt(WriteAt(s, w, d), r, n)[j] == ReadAt(s, r, n)[j]
    {
      var c := Cell(r + j, |s|);
      assert Distance(w, c, |s|) >= |d|;
    }
  }

  /** Reading m + n bytes is reading m bytes and then the n after them. */
  lemma ReadSplit(s: seq<byte>, o: int, m: nat, n: nat)
    requires 0 <= o && o + m + n <= 2 * |s|
    ensures ReadAt(s, o, m + n) == ReadAt(s, o, m) + ReadAt(s, o + m, n)
  {
  }

  /** Offsets o and o - |s| alias: reading from either gives the same bytes. */
  lemma ReadAlias(s: seq<byte>, o: int, n: nat)
    requires |s| <= o && o + n <= 2 * |s|
    ensures ReadAt(s, o, n) == ReadAt(s, o - |s|, n)
  {
    forall j | 0 <= j < n
      ensures ReadAt(s, o, n)[j] == ReadAt(s, o - |s|, n)[j]
    {
      assert ReadAt(s, o, n)[j] == s[Cell(o + j, |s|)];
      assert Cell(o + j, |s|) == Cell(o - |s| + j, |s|);
    }
  }

  /** Offsets o and o - |s| alias: copying to either writes the same cells. */
  lemma WriteAlias(s: seq<byte>, o: int, d: seq<byte>)
    requires |s| <= o < 2 * |s| && |d| <= |s|
    ensures WriteAt(s, o, d) == WriteAt(s, o - |s|, d)
  {
  }

  /**
   * Copying d right after the m bytes read from r appends d to them: the step
   * that makes both buffers first-in first-out.
   */
  lemma AppendAt(s: seq<byte>, r: int, m: nat, d: seq<byte>)
    requires 0 <= r < |s| && m + |d| <= |s|
    ensures ReadAt(WriteAt(s, r + m, d), r, m + |d|) == ReadAt(s, r, m) + d
  {
    var t := WriteAt(s, r + m, d);
    ReadSplit(t, r, m, |d|);
    ReadUntouched(s, r + m, d, r, m);
    ReadBack(s, r + m, d);
  }

  /** A copy that fits before the end of the store is one contiguous block. */
  lemma WriteContiguous(s: seq<byte>, o: int, d: seq<byte>)
    requires 0 <= o && o + |d| <= |s|
    ensures o < |s| ==> WriteAt(s, o, d) == s[..o] + d + s[o + |d|..]
  {
  }

  /** A copy that passes the end of the store fills the tail and then the head. */
  lemma WriteWrapping(s: seq<byte>, o: int, d: seq<byte>)
    requires 0 <= o < |s| < o + |d| && |d| <= |s|
    ensures WriteAt(s, o, d) == d[|s| - o..] + s[|d| - (|s| - o)..o] + d[..|s| - o]
  {
  }

  /** A read that fits before the end of the store is one contiguous block. */
  lemma ReadContiguous(s: seq<byte>, o: int, n: nat)
    requires 0 <= o && o + n <= |s|
    ensures ReadAt(s, o, n) == s[o..o + n]
  {
    forall j | 0 <= j < n
      ensures ReadAt(s, o, n)[j] == s[o..o + n][j]
    {
      assert ReadAt(s, o, n)[j] == s[Cell(o + j, |s|)];
    }
  }

  /** A read that passes the end of the store takes the tail and then the head. */
  lemma ReadWrapping(s: seq<byte>, o: int, n: nat)
    requires 0 <= o < |s| < o + n <= 2 * |s|
    ensures ReadAt(s, o, n) == s[o..] + s[..o + n - |s|]
  {
    forall j | 0 <= j < n
      ensures ReadAt(s, o, n)[j] == (s[o..] + s[..o + n - |s|])[j]
    {
      assert ReadAt(s, o, n)[j] == s[Cell(o + j, |s|)];
    }
  }

  /** AppendAt for a copy made at the cell where the m bytes from r end, as the copy-based buffer does. */
  lemma AppendAtCell(s: seq<byte>, r: int, m: nat, d: seq<byte>)
    requires 0 <= r < |s| && m + |d| <= |s|
    ensures ReadAt(WriteAt(s, Cell(r + m, |s|), d), r, m + |d|) == ReadAt(s, r, m) + d
  {
    if r + m >= |s| {
      WriteAlias(s, r + m, d);
    }
    AppendAt(s, r, m, d);
  }

  /** Reading from the cell n bytes past r gives the bytes that follow the first n from r. */
  lemma ReadFromCell(s: seq<byte>, r: int, n: nat, m: nat)
    requires 0 <= r < |s| && n + m <= |s|
    ensures ReadAt(s, Cell(r + n, |s|), m) == ReadAt(s, r, n + m)[n..]
  {
    ReadSplit(s, r, n, m);
    if r + n >= |s| {
      ReadAlias(s, r + n, m);
    }
  }

  /** `s` with the cells from `at` on replaced by `d`: one memcpy. */
  function Splice(s: seq<byte>, at: nat, d: seq<byte>): (t: seq<byte>)
    requires at + |d| <= |s|
    ensures |t| == |s|
  {
    s[..at] + d + s[at + |d|..]
  }

  /** A copy that fits before the end of the store is one memcpy. */
  lemma OnePartWrite(s: seq<byte>, o: int, d: seq<byte>)
    requires 0 <= o < |s| && o + |d| <= |s|
    ensures Splice(s, o, d) == WriteAt(s, o, d)
  {
    WriteContiguous(s, o, d);
  }

  /** The two memcpy calls of a transfer that passes the end of the store together make WriteAt. */
  lemma TwoPartWrite(s: seq<byte>, o: int, d: seq<byte>)
    requires 0 <= o < |s| < o + |d| && |d| <= |s|
    ensures Splice(Splice(s, o, d[..|s| - o]), 0, d[|s| - o..]) == WriteAt(s, o, d)
  {
    var k := |s| - o;
    var first := Splice(s, o, d[..k]);
    assert first == s[..o] + d[..k];
    assert first[|d| - k..] == s[|d| - k..o] + d[..k];
    WriteWrapping(s, o, d);
  }

  /** A read that stops before the end of the store is one memcpy. */
  lemma OnePartRead(s: seq<byte>, o: int, n: nat, dst: seq<byte>)
    requires 0 <= o && o + n <= |s| && n <= |dst|
    ensures Splice(dst, 0, s[o..o + n]) == Splice(dst, 0, ReadAt(s, o, n))
  {
    ReadContiguous(s, o, n);
  }

  /** The two memcpy calls of a read that passes the end of the store together copy out ReadAt. */
  lemma TwoPartRead(s: seq<byte>, o: int, n: nat, dst: seq<byte>)
    requires 0 <= o < |s| < o + n <= 2 * |s| && n <= |dst|
    ensures Splice(Splice(dst, 0, s[o..]), |s| - o, s[..n - (|s| - o)]) == Splice(dst, 0, ReadAt(s, o, n))
  {
    ReadWrapping(s, o, n);
  }
}
