/**
 * The copy-based circular buffer: bytes are copied into and out of an array
 * of `capacity` cells, in two parts when a transfer passes the array's end.
 */
module CopyRing {
  import opened Bytes
  import opened Circular

  /** memcpy of `src` into `dst` from index `at` on. */
  method CopyInto(dst: array<byte>, at: nat, src: seq<byte>)
    requires at + |src| <= dst.Length
    modifies dst
    ensures dst[..] == Splice(old(dst[..]), at, src)
  {
    var i := 0;
    while i < |src|
      invariant 0 <= i <= |src|
      invariant forall k :: 0 <= k < dst.Length ==>
        dst[k] == if at <= k < at + i then src[k - at] else old(dst[k])
    {
      dst[at + i] := src[i];
      i := i + 1;
    }
    assert dst[..] == Splice(old(dst[..]), at, src);
  }

  /**
   * The abstraction relation: `size` bytes stored from cell `begin` on end at
   * cell `end`, and they are `contents`. A buffer of capacity 0 stays at 0.
   */
  ghost predicate Represents(cells: seq<byte>, begin: nat, end: nat, size: nat, contents: seq<byte>)
  {
    size <= |cells|
    && (if |cells| == 0 then begin == 0 && end == 0
        else begin < |cells| && end == Cell(begin + size, |cells|))
    && contents == ReadAt(cells, begin, size)
  }

  /** Copying d at `end` appends it to the contents and moves `end` past it. */
  lemma AppendKeeps(cells: seq<byte>, begin: nat, end: nat, size: nat, contents: seq<byte>, d: seq<byte>)
    requires Represents(cells, begin, end, size, contents)
    requires |cells| > 0 && size + |d| <= |cells|
    ensures Represents(WriteAt(cells, end, d), begin, Cell(end + |d|, |cells|), size + |d|, contents + d)
  {
    AppendAtCell(cells, begin, size, d);
  }

  /** The n bytes from `begin` are the oldest n of the contents; dropping them leaves the rest. */
  lemma RemoveKeeps(cells: seq<byte>, begin: nat, end: nat, size: nat, contents: seq<byte>, n: nat)
    requires Represents(cells, begin, end, size, contents)
    requires |cells| > 0 && n <= size
    ensures ReadAt(cells, begin, n) == contents[..n]
    ensures Represents(cells, Cell(begin + n, |cells|), end, size - n, contents[n..])
  {
    ReadFromCell(cells, begin, n, size - n);
  }

  class RingBuffer {
    var begin: nat
    var end: nat
    var size: nat
    const capacity: nat
    const data: array<byte>
    /** The stored bytes, oldest first. */
    ghost var Contents: seq<byte>

    /** `end` is where `size` bytes from `begin` stop, and those bytes are Contents. */
    ghost predicate Valid()
      reads this, data
    {
      data.Length == capacity && Represents(data[..], begin, end, size, Contents)
    }

    constructor (capacity: nat)
      ensures Valid() && fresh(data)
      ensures this.capacity == capacity && begin == 0 && end == 0 && size == 0
      ensures Contents == []
    {
      begin, end, size := 0, 0, 0;
      this.capacity := capacity;
      data := new byte[capacity];
      Contents := [];
    }

    function Size(): (n: nat)
      reads this, data
      requires Valid()
      ensures n == |Contents| && n <= capacity
    {
      size
    }

    function Capacity(): (c: nat)
      reads this, data
      requires Valid()
      ensures c == data.Length && |Contents| <= c
    {
      capacity
    }

    /**
     * The copy step of Write: `chunk` goes in at `end`, in two parts when it
     * passes the array's end, and `end` moves past it (back to 0 when it lands
     * exactly on the capacity).
     */
    method CopyAtEnd(chunk: seq<byte>)
      requires data.Length == capacity && |chunk| <= capacity
      requires if capacity == 0 then end == 0 else end < capacity
      modifies this`end, data
      ensures if capacity == 0 then end == 0 else end == Cell(old(end) + |chunk|, capacity)
      ensures capacity > 0 ==> data[..] == WriteAt(old(data[..]), old(end), chunk)
    {
      ghost var before := data[..];
      if |chunk| <= capacity - end {
        CopyInto(data, end, chunk);
        if capacity > 0 {
          OnePartWrite(before, end, chunk);
        }
        end := end + |chunk|;
        if end == capacity {
          end := 0;
        }
      } else {
        var sizeFirstPart := capacity - end;
        CopyInto(data, end, chunk[..sizeFirstPart]);
        var sizeSecondPart := |chunk| - sizeFirstPart;
        CopyInto(data, 0, chunk[sizeFirstPart..]);
        TwoPartWrite(before, old(end), chunk);
        end := sizeSecondPart;
      }
    }

    /**
     * Appends as much of `input` as fits and returns how much that was. Byte i
     * lands in cell (end + i) mod capacity, first up to the array's end and
     * then from its start.
     */
    method Write(input: seq<byte>) returns (written: nat)
      requires Valid()
      modifies this, data
      ensures Valid()
      ensures written == Min(|input|, capacity - old(size))
      ensures Contents == old(Contents) + input[..written]
      ensures size == old(size) + written && begin == old(begin)
      ensures capacity > 0 ==> end == Cell(old(end) + written, capacity)
      ensures capacity > 0 ==> data[..] == WriteAt(old(data[..]), old(end), input[..written])
      ensures |input| == 0 ==> unchanged(this) && unchanged(data)
    {
      if |input| == 0 {
        return 0;
      }
      var bytesToWrite := Min(|input|, capacity - size);
      var chunk := input[..bytesToWrite];
      ghost var before, oldEnd := data[..], end;
      CopyAtEnd(chunk);
      if capacity > 0 {
        AppendKeeps(before, begin, oldEnd, size, Contents, chunk);
      }
      size := size + bytesToWrite;
      Contents := Contents + chunk;
      written := bytesToWrite;
    }

    /**
     * The copy step of Read: n bytes from `begin` go to the front of `dest`,
     * in two parts when they pass the array's end, and `begin` moves past them
     * (back to 0 when it lands exactly on the capacity).
     */
    method CopyFromBegin(dest: array<byte>, n: nat)
      requires data.Length == capacity && dest != data && n <= dest.Length && n <= capacity
      requires if capacity == 0 then begin == 0 else begin < capacity
      modifies this`begin, dest
      ensures if capacity == 0 then begin == 0 else begin == Cell(old(begin) + n, capacity)
      ensures dest[..] == Splice(old(dest[..]), 0, ReadAt(data[..], old(begin), n))
    {
      ghost var cells, before := data[..], dest[..];
      if n <= capacity - begin {
        CopyInto(dest, 0, data[begin..begin + n]);
        OnePartRead(cells, begin, n, before);
        begin := begin + n;
        if begin == capacity {
          begin := 0;
        }
      } else {
        var sizeFirstPart := capacity - begin;
        CopyInto(dest, 0, data[begin..]);
        var sizeSecondPart := n - sizeFirstPart;
        CopyInto(dest, sizeFirstPart, data[..sizeSecondPart]);
        TwoPartRead(cells, old(begin), n, before);
        begin := sizeSecondPart;
      }
    }

    /**
     * Moves the oldest min(dest.Length, size) bytes into `dest` and returns
     * how many; the storage array is left as it was.
     */
    method Read(dest: array<byte>) returns (count: nat)
      requires Valid() && dest != data
      modifies this, dest
      ensures Valid()
      ensures count == Min(dest.Length, old(size))
      ensures dest[..count] == old(Contents)[..count] && dest[count..] == old(dest[count..])
      ensures Contents == old(Contents)[count..]
      ensures size == old(size) - count && end == old(end)
      ensures capacity > 0 ==> begin == Cell(old(begin) + count, capacity)
      ensures data[..] == old(data[..])
      ensures dest.Length == 0 ==> unchanged(this) && unchanged(dest)
    {
      if dest.Length == 0 {
        return 0;
      }
      var bytesToRead := Min(dest.Length, size);
      ghost var cells, oldBegin := data[..], begin;
      CopyFromBegin(dest, bytesToRead);
      if capacity > 0 {
        RemoveKeeps(cells, oldBegin, end, size, Contents, bytesToRead);
      }
      size := size - bytesToRead;
      Contents := Contents[bytesToRead..];
      count := bytesToRead;
    }
  }
}
