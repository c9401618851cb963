/**
 * The double-mapped ring buffer. The 2 * bufferSize bytes of the mapping are
 * modelled by the bufferSize physical bytes behind them (`region`): offset o of
 * the mapping reaches region[o % bufferSize]. Pointers become offsets into the
 * mapping; the bytes a caller copies through them go through WriteMapped and
 * ReadMapped.
 */
module VirtualRing {
  import opened Bytes
  import opened Circular
  import opened PageRounding
  import opened ModArith

  class VirtualRingBuffer {
    /** The requested capacity rounded up to whole pages. */
    const bufferSize: nat
    /** The pages that both halves of the mapping alias. */
    const region: array<byte>
    var writeOffset: int
    var readOffset: int

    /**
     * What every operation keeps. The read offset stays in the first half;
     * the write offset stays inside the mapping and at most one buffer behind
     * the read offset, the range in which size() needs at most one correction.
     */
    ghost predicate Valid()
      reads this
    {
      1 <= bufferSize && region.Length == bufferSize
      && 0 <= readOffset < bufferSize
      && readOffset - bufferSize <= writeOffset <= 2 * bufferSize
    }

    /** The caller has committed no more than the free space and decommitted no more than size(). */
    ghost predicate Normal()
      reads this
    {
      readOffset <= writeOffset <= readOffset + bufferSize
    }

    /** The committed, not yet decommitted bytes, oldest first. */
    ghost function Contents(): seq<byte>
      reads this, region
      requires Valid() && Normal()
    {
      ReadAt(region[..], readOffset, writeOffset - readOffset)
    }

    /** Maps the buffer; a capacity of 0 counts as 1 and the size is rounded up to whole pages. */
    constructor (capacity: nat, pageSize: nat)
      requires IsPowerOfTwo(pageSize)
      ensures Valid() && Normal() && fresh(region)
      ensures bufferSize == RoundUpToPage(capacity, pageSize)
      ensures writeOffset == 0 && readOffset == 0
      ensures region[..] == seq(bufferSize, _ => 0)
      ensures Contents() == []
    {
      readOffset, writeOffset := 0, 0;
      var size := RoundUpToPage(capacity, pageSize);
      bufferSize := size;
      region := new byte[size](_ => 0);
    }

    function Capacity(): (c: nat)
      reads this
      requires Valid()
      ensures 1 <= c && c == region.Length
      ensures Normal() ==> Size() <= c
    {
      bufferSize
    }

    /**
     * The number of stored bytes: the distance from the read offset to the
     * write offset, brought into [0, bufferSize] by one addition or
     * subtraction of bufferSize.
     */
    function Size(): (n: nat)
      reads this
      requires Valid()
      ensures n <= bufferSize
      ensures Normal() ==> n == writeOffset - readOffset
      ensures n % bufferSize == (writeOffset - readOffset) % bufferSize
    {
      var amount := writeOffset - readOffset;
      ModAddMultiple(amount, 1, bufferSize);
      ModAddMultiple(amount, -1, bufferSize);
      if amount < 0 then amount + bufferSize
      else if amount > bufferSize then amount - bufferSize
      else amount
    }
  
    /**
     * Where the producer writes next. While the caller keeps to the contract,
     * it is the end of the stored bytes, and the whole free space after it lies
     * inside the mapping, so it can be filled with one contiguous copy.
     */
    function WritePointer(): (o: int)
      reads this
      requires Valid()
      ensures Normal() ==> o == readOffset + Size()
      ensures Normal() ==> 0 <= o && o + (bufferSize - Size()) < 2 * bufferSize
    {
      writeOffset
    }

    /** Where the consumer reads next: the oldest stored byte; all of size() lies after it inside the mapping. */
    function ReadPointer(): (o: int)
      reads this
      requires Valid()
      ensures 0 <= o < bufferSize
      ensures o + Size() <= 2 * bufferSize
    {
      readOffset
    }

    /** A copy of `data` into the mapping at `offset`, as memcpy through a writePointer(). */
    method WriteMapped(offset: int, data: seq<byte>)
      requires Valid()
      requires 0 <= offset < 2 * bufferSize && offset + |data| <= 2 * bufferSize
      requires |data| <= bufferSize
      modifies region
      ensures region[..] == WriteAt(old(region[..]), offset, data)
      ensures Normal() && offset == writeOffset && |data| <= bufferSize - Size() ==>
                Contents() == old(Contents()) && ReadAt(region[..], offset, |data|) == data
    {
      var i := 0;
      while i < |data|
        invariant 0 <= i <= |data|
        invariant forall c :: 0 <= c < bufferSize ==>
          region[c] == if Distance(offset, c, bufferSize) < i then data[Distance(offset, c, bufferSize)] else old(region[c])
      {
        DistanceToCell(offset, i, bufferSize);
        region[Cell(offset + i, bufferSize)] := data[i];
        i := i + 1;
      }
      assert region[..] == WriteAt(old(region[..]), offset, data);
      if Normal() && offset == writeOffset && |data| <= bufferSize - Size() {
        ReadUntouched(old(region[..]), offset, data, readOffset, writeOffset - readOffset);
        ReadBack(old(region[..]), offset, data);
      }
    }

    /** A copy of n bytes out of the mapping from `offset`, as memcpy from a readPointer(). */
    method ReadMapped(offset: int, n: nat) returns (out: seq<byte>)
      requires Valid()
      requires 0 <= offset && offset + n <= 2 * bufferSize
      ensures out == ReadAt(region[..], offset, n)
      ensures Normal() && offset == readOffset && n <= Size() ==> out == Contents()[..n]
    {
      out := [];
      var i := 0;
      while i < n
        invariant 0 <= i <= n
        invariant out == ReadAt(region[..], offset, i)
      {
        out := out + [region[Cell(offset + i, bufferSize)]];
        i := i + 1;
      }
      if Normal() && offset == readOffset && n <= Size() {
        ReadSplit(region[..], offset, n, Size() - n);
      }
    }

    /**
     * Publishes count bytes written at the write pointer. Nothing is checked
     * against the free space; the bytes stored are not touched.
     */
    method Commit(count: nat)
      requires Valid()
      requires writeOffset + count <= 2 * bufferSize
      modifies this
      ensures Valid()
      ensures writeOffset == old(writeOffset) + count && readOffset == old(readOffset)
      ensures region[..] == old(region[..])
      ensures old(Normal()) && old(Size()) + count <= bufferSize ==>
                Normal() && Size() == old(Size()) + count
                && Contents() == old(Contents()) + old(ReadAt(region[..], writeOffset, count))
    {
      ghost var oldWrite := writeOffset;
      writeOffset := writeOffset + count;
      if old(Normal()) && old(Size()) + count <= bufferSize {
        ReadSplit(region[..], readOffset, oldWrite - readOffset, count);
      }
    }

    /**
     * Releases count bytes at the read pointer. Once the read offset reaches
     * the second half, both offsets move back by bufferSize: they then name
     * the same cells and keep their distance.
     */
    method Decommit(count: nat)
      requires Valid()
      requires count <= bufferSize && readOffset + count <= writeOffset + bufferSize
      modifies this
      ensures Valid()
      ensures if old(readOffset) + count >= bufferSize
              then readOffset == old(readOffset) + count - bufferSize && writeOffset == old(writeOffset) - bufferSize
              else readOffset == old(readOffset) + count && writeOffset == old(writeOffset)
      ensures writeOffset - readOffset == old(writeOffset - readOffset) - count
      ensures readOffset % bufferSize == (old(readOffset) + count) % bufferSize
      ensures writeOffset % bufferSize == old(writeOffset) % bufferSize
      ensures old(Normal()) && count <= old(Size()) ==>
                Normal() && Size() == old(Size()) - count && Contents() == old(Contents())[count..]
    {
      readOffset := readOffset + count;
      if readOffset >= bufferSize {
        readOffset := readOffset - bufferSize;
        writeOffset := writeOffset - bufferSize;
        ModAddMultiple(readOffset, 1, bufferSize);
        ModAddMultiple(writeOffset, 1, bufferSize);
      }
      if old(Normal()) && count <= old(Size()) {
        var s := region[..];
        var start := old(readOffset);
        var total := old(writeOffset) - start;
        ReadSplit(s, start, count, total - count);
        if start + count >= bufferSize {
          ReadAlias(s, start + count, total - count);
        }
      }
    }

    /** count, cut down to the free space: the most a read(2) into the buffer may store. */
    function FreeBound(count: nat): (n: nat)
      reads this
      requires Valid()
      ensures n <= count && n <= bufferSize - Size() && (n == count || n == bufferSize - Size())
    {
      Min(count, bufferSize - Size())
    }

    /** count, cut down to size(): the most a write(2) from the buffer may send of what is stored. */
    function StoredBound(count: nat): (n: nat)
      reads this
      requires Valid()
      ensures n <= count && n <= Size() && (n == count || n == Size())
    {
      Min(count, Size())
    }

    /**
     * readFromDescriptor as written. read(2) is asked for StoredBound(count)
     * bytes at the write pointer and its result is passed in as numRead, with
     * the bytes it delivered. The early return `numRead == 0 || numRead -1`
     * lets only a one-byte read reach the commit.
     */
    method ReadFromDescriptor(count: nat, numRead: int, incoming: seq<byte>) returns (r: int)
      requires Valid()
      requires -1 <= numRead <= StoredBound(count)
      requires |incoming| == (if numRead > 0 then numRead else 0)
      requires numRead > 0 ==> 0 <= writeOffset && writeOffset + numRead <= 2 * bufferSize
      modifies this, region
      ensures Valid() && r == numRead
      ensures region[..] == if numRead > 0 then WriteAt(old(region[..]), old(writeOffset), incoming) else old(region[..])
      ensures readOffset == old(readOffset)
      ensures writeOffset == old(writeOffset) + (if numRead == 1 then 1 else 0)
    {
      if numRead > 0 {
        WriteMapped(writeOffset, incoming);
      }
      r := numRead;
      if SkipsCommitAsWritten(numRead) {
        return;
      }
      Commit(numRead);
    }

    /**
     * writeToDescriptor as written. write(2) is offered FreeBound(count)
     * bytes from the read pointer and its result is passed in as numWrite; the
     * bytes it took are returned as `sent`. Unless the result is 0 or -1 that
     * many bytes are decommitted.
     */
    method WriteToDescriptor(count: nat, numWrite: int) returns (r: int, sent: seq<byte>)
      requires Valid()
      requires -1 <= numWrite <= FreeBound(count)
      requires readOffset + numWrite <= writeOffset + bufferSize
      modifies this
      ensures Valid() && r == numWrite
      ensures sent == if numWrite > 0 then old(ReadAt(region[..], readOffset, numWrite)) else []
      ensures numWrite <= 0 ==> writeOffset == old(writeOffset) && readOffset == old(readOffset)
      ensures numWrite > 0 ==> writeOffset - readOffset == old(writeOffset - readOffset) - numWrite
      ensures numWrite > 0 ==> readOffset % bufferSize == (old(readOffset) + numWrite) % bufferSize
                               && writeOffset % bufferSize == old(writeOffset) % bufferSize
    {
      sent := [];
      if numWrite > 0 {
        sent := ReadMapped(readOffset, numWrite);
      }
      r := numWrite;
      if SkipsCommit(numWrite) {
        return;
      }
      Decommit(numWrite);
    }

    /** readFromDescriptor with its request bounded by the free space and every successful read committed. */
    method FillFromDescriptor(count: nat, numRead: int, incoming: seq<byte>) returns (r: int)
      requires Valid() && Normal()
      requires -1 <= numRead <= FreeBound(count)
      requires |incoming| == (if numRead > 0 then numRead else 0)
      modifies this, region
      ensures Valid() && Normal() && r == numRead
      ensures Contents() == old(Contents()) + incoming
    {
      if numRead > 0 {
        WriteMapped(writeOffset, incoming);
      }
      r := numRead;
      if SkipsCommit(numRead) {
        return;
      }
      Commit(numRead);
    }

    /** writeToDescriptor with its request bounded by the stored bytes: it sends and releases the oldest ones. */
    method DrainToDescriptor(count: nat, numWrite: int) returns (r: int, sent: seq<byte>)
      requires Valid() && Normal()
      requires -1 <= numWrite <= StoredBound(count)
      modifies this
      ensures Valid() && Normal() && r == numWrite
      ensures numWrite > 0 ==> sent == old(Contents())[..numWrite] && Contents() == old(Contents())[numWrite..]
      ensures numWrite <= 0 ==> sent == [] && Contents() == old(Contents())
    {
      sent := [];
      if numWrite > 0 {
        sent := ReadMapped(readOffset, numWrite);
      }
      r := numWrite;
      if SkipsCommit(numWrite) {
        return;
      }
      Decommit(numWrite);
    }
  }

  /** readFromDescriptor's test for returning before the commit, as written: `numRead == 0 || numRead -1`. */
  function SkipsCommitAsWritten(numRead: int): (skip: bool)
    ensures skip <==> numRead != 1
  {
    numRead == 0 || numRead - 1 != 0
  }

  /** The test writeToDescriptor uses: the transfer reached the end of the stream or failed. */
  function SkipsCommit(transferred: int): (skip: bool)
    ensures transferred >= -1 ==> (skip <==> transferred <= 0)
  {
    transferred == 0 || transferred == -1
  }
}
