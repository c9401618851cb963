/**
 * The test program's scenarios on an 8000-byte double-mapped buffer with
 * 4096-byte pages (so 8192 bytes of storage), and small scenarios that set the
 * descriptor helpers as written beside their corrected forms, and that drive
 * the copy-based buffer across its array's end.
 */
module Driver {
  import opened Bytes
  import opened Circular
  import opened PageRounding
  import opened VirtualRing
  import opened CopyRing

  /** What memset leaves in a 2000-byte staging buffer. */
  function Block(v: byte): (d: seq<byte>)
    ensures |d| == 2000 && forall i :: 0 <= i < |d| ==> d[i] == v
  {
    seq(2000, _ => v)
  }

  /** The character '0' + i, as the loop test stores it. */
  function Marker(i: nat): (b: byte)
    requires i < 208
    ensures b as int == 48 + i
  {
    (48 + i) as byte
  }

  /**
   * Five 2000-byte blocks '0'..'4' copied one after the other from offset r of
   * an 8192-byte mapping: the last block has overwritten the first 1808 bytes
   * from r, and the 192 after them still hold the first block.
   */
  lemma WrappedOverwrite(s: seq<byte>, r: int)
    requires |s| == 8192 && 0 <= r && r + 2000 <= 8192
    ensures var t := WriteAt(WriteAt(WriteAt(WriteAt(WriteAt(s,
                       r, Block(48)), r + 2000, Block(49)), r + 4000, Block(50)), r + 6000, Block(51)), r + 8000, Block(52));
            ReadAt(t, r, 1808) == seq(1808, _ => 52 as byte) && ReadAt(t, r + 1808, 192) == seq(192, _ => 48 as byte)
  {
    var t1 := WriteAt(s, r, Block(48));
    var t2 := WriteAt(t1, r + 2000, Block(49));
    var t3 := WriteAt(t2, r + 4000, Block(50));
    var t4 := WriteAt(t3, r + 6000, Block(51));
    var t5 := WriteAt(t4, r + 8000, Block(52));
    forall j | 0 <= j < 1808
      ensures ReadAt(t5, r, 1808)[j] == 52
    {
      var c := Cell(r + j, 8192);
      DistanceIs(r + 8000, c, 8192, -1, j + 192);
      assert t5[c] == 52;
    }
    var o := r + 1808;
    forall j | 0 <= j < 192
      ensures ReadAt(t5, o, 192)[j] == 48
    {
      var c := Cell(o + j, 8192);
      DistanceIs(r, c, 8192, 0, 1808 + j);
      DistanceIs(r + 2000, c, 8192, -1, j + 8000);
      DistanceIs(r + 4000, c, 8192, -1, j + 6000);
      DistanceIs(r + 6000, c, 8192, -1, j + 4000);
      DistanceIs(r + 8000, c, 8192, -1, j + 2000);
      assert t1[c] == 48;
      assert t5[c] == t1[c];
    }
  }

  /**
   * The round trip for any block that fits: copied in at the write pointer of
   * an empty buffer, committed, copied out from the read pointer and
   * decommitted, the block comes back unchanged and the buffer is empty again.
   */
  method RoundTripAny(vb: VirtualRingBuffer, d: seq<byte>) returns (out: seq<byte>)
    requires vb.Valid() && vb.Normal() && vb.readOffset == vb.writeOffset && |d| <= vb.bufferSize
    modifies vb, vb.region
    ensures out == d
    ensures vb.Valid() && vb.Normal() && vb.Size() == 0 && vb.readOffset == vb.writeOffset
  {
    vb.WriteMapped(vb.WritePointer(), d);
    vb.Commit(|d|);
    out := vb.ReadMapped(vb.ReadPointer(), |d|);
    vb.Decommit(|d|);
  }

  /**
   * One round of the simple and the loop test: memset, memcpy into the write
   * pointer, commit, memcpy out of the read pointer, decommit, memcmp. The
   * bytes come back equal and both offsets move on by 2000, less one buffer
   * when the read offset reaches the second half.
   */
  method RoundTrip(vb: VirtualRingBuffer, v: byte) returns (same: bool)
    requires vb.Valid() && vb.Normal() && vb.bufferSize == 8192 && vb.readOffset == vb.writeOffset
    modifies vb, vb.region
    ensures same
    ensures vb.Valid() && vb.Normal() && vb.readOffset == vb.writeOffset
    ensures vb.readOffset == if old(vb.readOffset) + 2000 >= 8192 then old(vb.readOffset) + 2000 - 8192
                             else old(vb.readOffset) + 2000
  {
    var indata := Block(v);
    vb.WriteMapped(vb.WritePointer(), indata);
    vb.Commit(2000);
    var outdata := vb.ReadMapped(vb.ReadPointer(), 2000);
    vb.Decommit(2000);
    same := outdata == indata;
  }

  /**
   * Five blocks committed without reading, which is more than the buffer
   * holds, then 1808 and 192 bytes taken: the first part is the last block,
   * the second the tail of the first block.
   */
  method WrappedTest(vb: VirtualRingBuffer) returns (lastBlock: bool, firstBlock: bool)
    requires vb.Valid() && vb.bufferSize == 8192 && vb.readOffset == vb.writeOffset
    requires vb.readOffset + 2000 <= 8192
    modifies vb, vb.region
    ensures lastBlock && firstBlock
    ensures vb.Valid()
  {
    ghost var s := vb.region[..];
    ghost var r := vb.readOffset;
    var i := 0;
    while i < 5
      invariant 0 <= i <= 5
      invariant vb.Valid() && vb.bufferSize == 8192 && vb.readOffset == r
      invariant vb.writeOffset == r + 2000 * i
      invariant vb.region[..] == WriteChain(s, r, i)
    {
      vb.WriteMapped(vb.WritePointer(), Block(Marker(i)));
      vb.Commit(2000);
      i := i + 1;
    }
    ghost var t := vb.region[..];
    WrappedChain(s, r);
    var first := vb.ReadMapped(vb.ReadPointer(), 1808);
    assert first == ReadAt(t, r, 1808);
    vb.Decommit(1808);
    var second := vb.ReadMapped(vb.ReadPointer(), 192);
    assert second == ReadAt(t, r + 1808, 192);
    vb.Decommit(192);
    lastBlock := first == seq(1808, _ => 52 as byte);
    firstBlock := second == seq(192, _ => 48 as byte);
  }

  /** The five blocks of the wrapped test, copied in by the loop, leave the bytes WrappedOverwrite describes. */
  lemma WrappedChain(s: seq<byte>, r: int)
    requires |s| == 8192 && 0 <= r && r + 2000 <= 8192
    ensures ReadAt(WriteChain(s, r, 5), r, 1808) == seq(1808, _ => 52 as byte)
    ensures ReadAt(WriteChain(s, r, 5), r + 1808, 192) == seq(192, _ => 48 as byte)
  {
    WrappedOverwrite(s, r);
    assert Marker(0) == 48 && Marker(1) == 49 && Marker(2) == 50 && Marker(3) == 51 && Marker(4) == 52;
    assert WriteChain(s, r, 1) == WriteAt(s, r, Block(48));
    assert WriteChain(s, r, 3) == WriteAt(WriteAt(WriteChain(s, r, 1), r + 2000, Block(49)), r + 4000, Block(50));
  }

  /** The cells after the first n of the five blocks of the wrapped test are copied in from offset r. */
  ghost function WriteChain(s: seq<byte>, r: int, n: nat): (t: seq<byte>)
    requires |s| == 8192 && 0 <= r && r + 10000 <= 16384 && n <= 5
    ensures |t| == 8192
  {
    if n == 0 then s
    else WriteAt(WriteChain(s, r, n - 1), r + 2000 * (n - 1), Block(Marker(n - 1)))
  }

  /**
   * The test program: the simple test, a hundred rounds of the loop test, and
   * the wrapped test, every comparison succeeding. After the 101 rounds both
   * offsets stand at 202000 mod 8192 = 5392.
   */
  method TestProgram() returns (simpleOk: bool, loopOk: bool, wrappedOk: bool)
    ensures simpleOk && loopOk && wrappedOk
  {
    RoundUpExample();
    var vb := new VirtualRingBuffer(8000, 4096);
    simpleOk := RoundTrip(vb, 49);
    loopOk := true;
    ghost var wraps := 0;
    var i := 0;
    while i < 100
      invariant 0 <= i <= 100
      invariant vb.Valid() && vb.Normal() && vb.bufferSize == 8192 && vb.readOffset == vb.writeOffset
      invariant vb.readOffset + 8192 * wraps == 2000 * (i + 1)
      invariant loopOk
    {
      var same := RoundTrip(vb, Marker(i));
      loopOk := loopOk && same;
      if vb.readOffset < 2000 {
        wraps := wraps + 1;
      }
      i := i + 1;
    }
    assert vb.readOffset == 5392;
    var lastBlock, firstBlock := WrappedTest(vb);
    wrappedOk := lastBlock && firstBlock;
  }

  /**
   * readFromDescriptor as written after 2000 bytes are stored: read(2)
   * delivers 5 bytes but they are not committed, so size() stays 2000; the
   * corrected helper commits them.
   */
  method CommitSkippedExample() returns (sizeAsWritten: nat, sizeCorrected: nat)
    ensures sizeAsWritten == 2000 && sizeCorrected == 2005
  {
    RoundUpExample();
    var incoming: seq<byte> := [50, 50, 50, 50, 50];
    var a := new VirtualRingBuffer(8000, 4096);
    a.WriteMapped(a.WritePointer(), Block(49));
    a.Commit(2000);
    var _ := a.ReadFromDescriptor(100, 5, incoming);
    sizeAsWritten := a.Size();
    var b := new VirtualRingBuffer(8000, 4096);
    b.WriteMapped(b.WritePointer(), Block(49));
    b.Commit(2000);
    var _ := b.FillFromDescriptor(100, 5, incoming);
    sizeCorrected := b.Size();
  }

  /**
   * The two bounds on an empty buffer. readFromDescriptor as written asks
   * read(2) for StoredBound(100), which is nothing; writeToDescriptor as
   * written offers write(2) FreeBound(100), which is 100 bytes never stored.
   */
  method EmptyBoundsExample() returns (stored: nat, free: nat)
    ensures stored == 0 && free == 100
  {
    RoundUpExample();
    var vb := new VirtualRingBuffer(8000, 4096);
    stored := vb.StoredBound(100);
    free := vb.FreeBound(100);
  }

  /**
   * readFromDescriptor as written with 6000 unread bytes of value 1 stored:
   * read(2) may deliver min(6000, size()) = 6000 bytes of value 2 at the
   * write pointer, more than the 2192 free, and they wrap onto the unread
   * bytes; the oldest stored byte the consumer then takes is a 2.
   */
  method OverwriteUnreadExample() returns (oldest: byte)
    ensures oldest == 2
  {
    RoundUpExample();
    var vb := new VirtualRingBuffer(8000, 4096);
    vb.WriteMapped(vb.WritePointer(), seq(6000, _ => 1));
    vb.Commit(6000);
    ghost var before := vb.region[..];
    var incoming: seq<byte> := seq(6000, _ => 2);
    var _ := vb.ReadFromDescriptor(6000, 6000, incoming);
    DistanceIs(6000, 0, 8192, -1, 2192);
    assert vb.region[0] == WriteAt(before, 6000, incoming)[0] == incoming[2192] == 2;
    var taken := vb.ReadMapped(vb.ReadPointer(), 1);
    assert vb.readOffset == 0 && taken[0] == vb.region[Cell(0, 8192)];
    oldest := taken[0];
  }

  /**
   * A state callers reach within the contract (commit 5000, decommit 5000,
   * commit 8000): read offset 5000, write offset 13000. readFromDescriptor as
   * written asks read(2) for min(8000, size()) = 8000 bytes at the write
   * pointer, but only 3384 bytes of the mapping lie after it.
   */
  method OverrunBoundExample() returns (request: nat, room: int)
    ensures request == 8000 && room == 3384 && request > room
  {
    RoundUpExample();
    var vb := new VirtualRingBuffer(8000, 4096);
    vb.Commit(5000);
    vb.Decommit(5000);
    vb.Commit(8000);
    request := vb.StoredBound(8000);
    room := 2 * vb.Capacity() - vb.WritePointer();
  }

  /**
   * writeToDescriptor as written on an empty buffer: write(2) may take the 100
   * bytes offered, which were never stored, and decommitting them leaves
   * size() at 8092 instead of 0.
   */
  method OverReleaseExample() returns (sizeAfter: nat, sent: seq<byte>)
    ensures sizeAfter == 8092 && sent == seq(100, _ => 0)
  {
    RoundUpExample();
    var vb := new VirtualRingBuffer(8000, 4096);
    ghost var zeros := vb.region[..];
    var _, out := vb.WriteToDescriptor(100, 100);
    assert forall j :: 0 <= j < 100 ==> out[j] == zeros[Cell(j, 8192)] == 0;
    sent := out;
    assert vb.readOffset == 100 && vb.writeOffset == 0;
    sizeAfter := vb.Size();
  }

  /**
   * The copy-based buffer with 4 cells: 3 bytes in, 2 out, then a write that
   * is clamped to the 3 free cells and passes the array's end, and a read that
   * returns the 4 stored bytes in the order they were written.
   */
  method CopyRingExample() returns (w1: nat, r1: nat, out1: seq<byte>, w2: nat, r2: nat, out2: seq<byte>)
    ensures w1 == 3 && r1 == 2 && out1 == [1, 2]
    ensures w2 == 3 && r2 == 4 && out2 == [3, 4, 5, 6]
  {
    var rb := new RingBuffer(4);
    w1 := rb.Write([1, 2, 3]);
    var small := new byte[2];
    r1 := rb.Read(small);
    out1 := small[..r1];
    w2 := rb.Write([4, 5, 6, 7]);
    var large := new byte[8];
    r2 := rb.Read(large);
    out2 := large[..r2];
  }
}
