/** file_write does not look at what walk_block returns.  When walk_block cannot add the
    indirect block it leaves the cell as it was, and the write goes on through a pointer
    that is stale or was never set.  This module says exactly when that happens. */
module TableFailure {
  import opened Disk
  import opened Layout
  import opened Transfer
  import opened Writing
  import opened KernelFs

  /** The bytes of the round that starts after n bytes. */
  function RoundData(offset: nat, count: nat, data: seq<byte>, n: nat): seq<byte>
    requires n < count && Moved(offset, count, n) <= |data|
  {
    data[n..n + Min(4096 - (offset + n) % 4096, count)]
  }

  /** file_write, n bytes on its way, comes to a round whose walk_block fails.  A round
      that finds no free data block ends the call instead. */
  ghost predicate Fails(f: Fs, ino: nat, offset: nat, count: nat, data: seq<byte>, n: nat)
    requires Own(f) && ino < |f.inodes|
    requires Moved(offset, count, n) <= |data| && offset + Moved(offset, count, n) <= 4096 * MAXBLOCKS
    decreases count - n
  {
    hide Own, Ptr, Room, PutF;
    n < count &&
    var k, d := (offset + n) / 4096, RoundData(offset, count, data, n);
    if NeedsTable(f, ino, k) && f.avail == {} then true
    else if !Room(f, ino, k) then false
    else
      PutOwn(f, ino, offset + n, d);
      PutInodes(f, ino, offset + n, d);
      Fails(PutF(f, ino, offset + n, d), ino, offset, count, data, n + |d|)
  }

  /** What decides: whether the write gets past the direct blocks, has no indirect block,
      and finds as many free blocks as there are holes among the direct ones before. */
  ghost predicate Stranded(f: Fs, ino: nat, offset: nat, end: nat, n: nat) {
    end > 40960 && Ptr(f, Direct(ino, 10)) == 0 && |f.avail| == Holes(f, ino, (offset + n) / 4096, 10)
  }

  /** A round in the direct blocks that is not the last leaves the decision as it was. */
  lemma DirectRound(f: Fs, ino: nat, offset: nat, count: nat, n: nat, d: seq<byte>)
    requires n + |d| < count && |d| == 4096 - (offset + n) % 4096 && (offset + n) / 4096 < 10
    requires Puttable(f, ino, offset + n, d)
    ensures forall end ::
      Stranded(PutF(f, ino, offset + n, d), ino, offset, end, n + |d|) <==> Stranded(f, ino, offset, end, n)
  {
    hide Own, Ptr, View, PutF, ContentPut, SameContent, Patch;
    var k, g := (offset + n) / 4096, PutF(f, ino, offset + n, d);
    PutIs(f, ino, offset + n, d);
    HolesSame(f, g, ino, k, k + 1);
    assert (offset + n + |d|) / 4096 == k + 1;
  }

  /** A round behind the indirect block leaves one there. */
  lemma IndirectRound(f: Fs, ino: nat, pos: nat, d: seq<byte>)
    requires Puttable(f, ino, pos, d) && (pos / 4096 >= 10 || Ptr(f, Direct(ino, 10)) != 0)
    ensures Ptr(PutF(f, ino, pos, d), Direct(ino, 10)) != 0
  {
    hide Own, Ptr, View, PutF, ContentPut, SameContent, Patch;
    PutIs(f, ino, pos, d);
  }

  lemma NoRoom(f: Fs, ino: nat, k: nat)
    requires Own(f) && ino < |f.inodes| && k < 10 && !Room(f, ino, k)
    ensures f.avail == {} && Hole(f, ino, k) == 1
  {
    hide Own, Ptr;
  }

  lemma Inside(o: nat, m: nat, k: nat)
    requires o / 4096 == k && m <= 4096 - o % 4096
    ensures o + m <= 4096 * (k + 1)
  {
  }

  lemma NoHoles(f: Fs, ino: nat, k: nat)
    ensures k >= 10 ==> Holes(f, ino, k, 10) == 0
    ensures Holes(f, ino, k, 10) >= if k < 10 then Hole(f, ino, k) else 0
  {
  }

  /** From the middle of the write on. */
  lemma {:induction false} FailsFrom(f: Fs, ino: nat, offset: nat, count: nat, data: seq<byte>, n: nat)
    requires Own(f) && ino < |f.inodes| && n < count && (n > 0 ==> (offset + n) % 4096 == 0)
    requires Moved(offset, count, n) <= |data| && offset + Moved(offset, count, n) <= 4096 * MAXBLOCKS
    ensures Fails(f, ino, offset, count, data, n) <==>
      Stranded(f, ino, offset, offset + Moved(offset, count, n), n)
    decreases count - n
  {
    hide Own, Ptr, Room, PutF, Holes, Hole;
    var pos, d := offset + n, RoundData(offset, count, data, n);
    var k := pos / 4096;
    assert f.avail == {} <==> |f.avail| == 0;
    Inside(pos, |d|, k);
    NoHoles(f, ino, k);
    if NeedsTable(f, ino, k) && f.avail == {} {
    } else if !Room(f, ino, k) {
      if k < 10 { NoRoom(f, ino, k); }
    } else if n + |d| < count {
      PutOwn(f, ino, pos, d);
      PutInodes(f, ino, pos, d);
      NextBoundary(pos, |d|);
      FailsFrom(PutF(f, ino, pos, d), ino, offset, count, data, n + |d|);
      if k < 10 { DirectRound(f, ino, offset, count, n, d); } else { IndirectRound(f, ino, pos, d); }
    }
  }

  /** The write goes on through a stale pointer if and only if it gets past the direct
      blocks without an indirect block, and the free blocks are exactly as many as the
      holes that it fills before. */
  lemma FailsIff(f: Fs, ino: nat, offset: nat, count: nat, data: seq<byte>)
    requires Own(f) && ino < |f.inodes| && 0 < count
    requires Moved(offset, count, 0) <= |data| && offset + Moved(offset, count, 0) <= 4096 * MAXBLOCKS
    ensures Fails(f, ino, offset, count, data, 0) <==>
      && offset + Moved(offset, count, 0) > 40960 && Ptr(f, Direct(ino, 10)) == 0
      && |f.avail| == Holes(f, ino, offset / 4096, 10)
    ensures Fails(f, ino, offset, count, data, 0) <==> !CanWrite(f, ino, offset, offset + Moved(offset, count, 0))
  {
    hide Own, Ptr, Moved, Holes, Fails;
    FailsFrom(f, ino, offset, count, data, 0);
    TransferLaw(offset, count);
  }

  /** An empty file on a disk without free blocks. */
  ghost function FullDisk(): Fs {
    Fs(seq(NBLOCKS, i => ZeroBlock()), {}, [Inode(0, 0, seq(11, i => 0))])
  }

  lemma FullDiskOwn()
    ensures Own(FullDisk())
  {
    var f := FullDisk();
    forall t ensures Ptr(f, t) == 0 { }
  }

  /** A byte written to it at offset 40960 goes through a stale pointer. */
  lemma FullDiskFails()
    ensures Own(FullDisk()) && Moved(40960, 1, 0) == 1 && Fails(FullDisk(), 0, 40960, 1, [0], 0)
  {
    FullDiskOwn();
    assert Moved(40960, 1, 1) == 1;
  }
}
