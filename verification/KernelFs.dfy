/** The kernel's reader and writer, kernel/fs.c and kernel/file.c.  The disk is an
    array of blocks; the block bitmap and the first block of inodes are copies in
    memory that are never written back. */
module KernelFs {
  import opened Words
  import opened Vm
  import opened Mm
  import opened Kept
  import opened Bytes
  import opened FsReads
  import opened Bitmap
  import opened Disk
  import opened Directory
  import opened Layout
  import opened Transfer
  import opened Writing
  import opened Demand

  /** What *diskno is: nowhere, a field of the inode in memory, or a word of a
      private copy of the indirect block that bread() put in frame pp. */
  datatype Cell = Nowhere | InInode(ino: nat, j: nat) | InCopy(pp: nat, copy: Block, l: nat)

  /** The cell of block k, once its indirect block is there. */
  ghost predicate CellOf(f: Fs, ino: nat, k: nat, c: Cell) {
    if k < 10 then c == InInode(ino, k)
    else
      k < MAXBLOCKS && Ptr(f, Direct(ino, 10)) < |f.blocks|
      && c.InCopy? && c.copy == f.blocks[Ptr(f, Direct(ino, 10))] && c.l == k - 10
  }

  /** walk_block finds the place of block k without adding an indirect block. */
  ghost predicate HasPlace(f: Fs, ino: nat, k: nat) { k < MAXBLOCKS && !NeedsTable(f, ino, k) }

  /** Every block that file_read gets to, up to the first that is not allocated, has a
      place: elsewhere the code goes through a null or stale pointer. */
  ghost predicate CanRead(f: Fs, ino: nat, offset: nat, end: nat) {
    forall k: nat {:trigger Touched(offset, end, k)} ::
      Touched(offset, end, k) && Allocated(f, ino, offset, 4096 * k) ==> HasPlace(f, ino, k)
  }

  ghost predicate CopiedAt(f: Fs, ino: nat, offset: nat, buf: seq<byte>, start: nat, i: nat)
    requires start + i < |buf|
  {
    buf[start + i] == ByteAt(f, ino, offset + i)
  }

  /** Bytes offset..offset+n of the file are in buf from start on, in order. */
  ghost predicate Copied(f: Fs, ino: nat, offset: nat, buf: seq<byte>, start: nat, n: nat) {
    start + n <= |buf| && forall i: nat {:trigger CopiedAt(f, ino, offset, buf, start, i)} :: i < n ==>
          CopiedAt(f, ino, offset, buf, start, i)
  }

  lemma SamePlace(pos: nat, i: nat)
    requires pos % 4096 + i < 4096
    ensures (pos + i) / 4096 == pos / 4096 && (pos + i) % 4096 == pos % 4096 + i
  {
  }

  /** One more piece of a block extends what is copied. */
  lemma CopyMore(f: Fs, ino: nat, offset: nat, b0: seq<byte>, b1: seq<byte>, start: nat, n: nat, m: nat)
    requires Copied(f, ino, offset, b0, start, n) && |b1| == |b0| && start + n + m <= |b1|
    requires (offset + n) % 4096 + m <= 4096
    requires SameOutside(b0, b1, start + n, start + n + m)
    requires b1[start + n..start + n + m] == View(f, ino, (offset + n) / 4096)[(offset + n) % 4096..(offset + n) % 4096 + m]
    ensures Copied(f, ino, offset, b1, start, n + m)
  {
    hide View;
    var pos := offset + n;
    forall i: nat | i < n + m ensures CopiedAt(f, ino, offset, b1, start, i) {
      if i < n {
        assert CopiedAt(f, ino, offset, b0, start, i);
      } else {
        SamePlace(pos, i - n);
        assert b1[start + i] == b1[start + n..start + n + m][i - n];
      }
    }
  }

  /** Outside [lo, hi) the buffer is unchanged. */
  ghost predicate SameOutside(b0: seq<byte>, b1: seq<byte>, lo: nat, hi: nat) {
    |b1| == |b0| && forall x :: 0 <= x < |b0| && !(lo <= x < hi) ==> b1[x] == b0[x]
  }

  lemma OutsideMore(bs: seq<byte>, b0: seq<byte>, b1: seq<byte>, lo: nat, hi: nat, m: nat)
    requires SameOutside(bs, b0, lo, hi) && SameOutside(b0, b1, hi, hi + m) && lo <= hi
    ensures SameOutside(bs, b1, lo, hi + m)
  {
  }

  lemma OutsideSelf(b: seq<byte>, lo: nat, hi: nat)
    ensures SameOutside(b, b, lo, hi)
  {
  }

  /** One round of a transfer: it stays in its block and within the whole. */
  lemma Round(f: Fs, ino: nat, offset: nat, count: nat, n: nat)
    requires n < count && CanRead(f, ino, offset, offset + Moved(offset, count, 0))
    requires Moved(offset, count, n) == Moved(offset, count, 0)
    requires Allocated(f, ino, offset, offset + n) && (n > 0 ==> (offset + n) % 4096 == 0)
    ensures var pos := offset + n; var m := Min(4096 - pos % 4096, count);
      && 0 < m && pos < 4096 * MAXBLOCKS && pos % 4096 + m <= 4096 && !NeedsTable(f, ino, pos / 4096)
      && Moved(offset, count, n + m) == Moved(offset, count, 0) && n + m <= Moved(offset, count, 0)
      && Touched(offset, offset + Moved(offset, count, 0), pos / 4096)
      && (n + m < count ==> (pos + m) % 4096 == 0)
  {
    hide Ptr, NeedsTable;
    var k := (offset + n) / 4096;
    assert Touched(offset, offset + Moved(offset, count, 0), k);
    forall j: nat | Touched(offset, 4096 * k, j) ensures j < MAXBLOCKS && Ptr(f, SlotAt(ino, j)) != 0 {
      assert Touched(offset, offset + n, j);
    }
    assert HasPlace(f, ino, k);
    NextBoundary(offset + n, 4096 - (offset + n) % 4096);
  }

  lemma Nothing(f: Fs, ino: nat, offset: nat, buf: seq<byte>, start: nat)
    requires start <= |buf|
    ensures Copied(f, ino, offset, buf, start, 0) && Allocated(f, ino, offset, offset)
  {
  }

  lemma AllocatedMore(f: Fs, ino: nat, offset: nat, end: nat, m: nat)
    requires Allocated(f, ino, offset, end) && offset <= end && end % 4096 + m <= 4096 && end < 4096 * MAXBLOCKS
    requires Ptr(f, SlotAt(ino, end / 4096)) != 0
    ensures Allocated(f, ino, offset, end + m)
  {
    forall k: nat | Touched(offset, end + m, k) ensures k < MAXBLOCKS && Ptr(f, SlotAt(ino, k)) != 0 {
      if k != end / 4096 { assert Touched(offset, end, k); }
    }
  }

  lemma NotAllocated(f: Fs, ino: nat, offset: nat, end: nat, k: nat)
    requires Touched(offset, end, k) && Ptr(f, SlotAt(ino, k)) == 0
    ensures !Allocated(f, ino, offset, end)
  {
  }

  /** file_read after n bytes: they are in the buffer, and nothing else there changed. */
  ghost predicate Reading(f: Fs, ino: nat, bs: seq<byte>, b: seq<byte>, start: nat, offset: nat, count: nat, n: nat) {
    var t := Moved(offset, count, 0);
    && n <= t && Moved(offset, count, n) == t && CanRead(f, ino, offset, offset + t) && start + t <= |b|
    && (0 < n < count ==> (offset + n) % 4096 == 0)
    && Copied(f, ino, offset, b, start, n) && Allocated(f, ino, offset, offset + n)
    && SameOutside(bs, b, start, start + n)
  }

  lemma ReadingStart(f: Fs, ino: nat, b: seq<byte>, start: nat, offset: nat, count: nat)
    requires CanRead(f, ino, offset, offset + Moved(offset, count, 0)) && start + Moved(offset, count, 0) <= |b|
    ensures Reading(f, ino, b, b, start, offset, count, 0)
  {
    Nothing(f, ino, offset, b, start);
    OutsideSelf(b, start, start);
  }

  lemma ReadingMore(f: Fs, ino: nat, bs: seq<byte>, b0: seq<byte>, b1: seq<byte>, start: nat, offset: nat,
        count: nat, n: nat, m: nat)
    requires Reading(f, ino, bs, b0, start, offset, count, n) && n < count
    requires m == Min(4096 - (offset + n) % 4096, count)
    requires SameOutside(b0, b1, start + n, start + n + m) && start + n + m <= |b1|
    requires Ptr(f, SlotAt(ino, (offset + n) / 4096)) != 0
    requires b1[start + n..start + n + m] == View(f, ino, (offset + n) / 4096)[(offset + n) % 4096..(offset + n) % 4096 + m]
    ensures Reading(f, ino, bs, b1, start, offset, count, n + m)
  {
    hide Own, Ptr, View, Copied, Moved, CanRead, Allocated, Touched, NeedsTable;
    Round(f, ino, offset, count, n);
    CopyMore(f, ino, offset, b0, b1, start, n, m);
    AllocatedMore(f, ino, offset, offset + n, m);
    OutsideMore(bs, b0, b1, start, start + n, m);
  }

  lemma ReadingRound(f: Fs, ino: nat, bs: seq<byte>, b: seq<byte>, start: nat, offset: nat, count: nat, n: nat)
    requires Reading(f, ino, bs, b, start, offset, count, n) && n < count
    ensures var pos := offset + n; var m := Min(4096 - pos % 4096, count);
      && 0 < m && pos < 4096 * MAXBLOCKS && pos % 4096 + m <= 4096 && !NeedsTable(f, ino, pos / 4096)
      && start + n + m <= |b| && Touched(offset, offset + Moved(offset, count, 0), pos / 4096)
  {
    hide Own, Ptr, View, Copied, Moved, CanRead, Allocated, Touched, SameOutside, NeedsTable;
    Round(f, ino, offset, count, n);
  }

  /** file_read stops after n bytes: they are in the buffer and nothing else there changed,
      all blocks up to there are allocated, and the next one is not. */
  ghost predicate ReadUpTo(f: Fs, ino: nat, offset: nat, bs: seq<byte>, b: seq<byte>, start: nat, n: nat) {
    && Copied(f, ino, offset, b, start, n) && SameOutside(bs, b, start, start + n)
    && Allocated(f, ino, offset, offset + n) && Ptr(f, SlotAt(ino, (offset + n) / 4096)) == 0
  }

  lemma ReadingEnd(f: Fs, ino: nat, bs: seq<byte>, b: seq<byte>, start: nat, offset: nat, count: nat, n: nat)
    requires Reading(f, ino, bs, b, start, offset, count, n)
    ensures SameOutside(bs, b, start, start + Moved(offset, count, 0)) && Copied(f, ino, offset, b, start, n)
    ensures n >= count ==> n == Moved(offset, count, 0) && Allocated(f, ino, offset, offset + Moved(offset, count, 0))
  {
    hide Own, Ptr, View, Copied, CanRead, Allocated;
  }

  lemma ReadingStops(f: Fs, ino: nat, bs: seq<byte>, b: seq<byte>, start: nat, offset: nat, count: nat, n: nat)
    requires Reading(f, ino, bs, b, start, offset, count, n) && n < count
    requires Ptr(f, SlotAt(ino, (offset + n) / 4096)) == 0
    ensures ReadUpTo(f, ino, offset, bs, b, start, n) && n < Moved(offset, count, 0)
  {
    hide Own, Ptr, View, Copied, CanRead, Allocated, SameOutside;
    assert Moved(offset, count, 0) == Moved(offset, count, n) >= n + Min(4096 - (offset + n) % 4096, count);
  }

  /** Where all blocks are allocated, file_read takes one frame for each round, and one
      more for the indirect block from block 10 on. */
  lemma {:induction false} ReadsAll(f: Fs, ino: nat, offset: nat, count: nat, n: nat)
    requires CanRead(f, ino, offset, offset + Moved(offset, count, 0))
    requires Allocated(f, ino, offset, offset + Moved(offset, count, 0))
    requires Moved(offset, count, n) == Moved(offset, count, 0) && (0 < n < count ==> (offset + n) % 4096 == 0)
    ensures |FileReads(f, ino, offset, count, n)| == TransferReads(offset, count, n)
    decreases count - n
  {
    hide Ptr, CanRead, Moved;
    if n < count {
      AllocatedUpTo(f, ino, offset, offset + n, offset + Moved(offset, count, 0));
      Round(f, ino, offset, count, n);
      ReadsAll(f, ino, offset, count, n + Min(4096 - (offset + n) % 4096, count));
    }
  }

  lemma AllocatedUpTo(f: Fs, ino: nat, offset: nat, end: nat, last: nat)
    requires Allocated(f, ino, offset, last) && end <= last
    ensures Allocated(f, ino, offset, end)
  {
    hide Ptr;
    forall k: nat | Touched(offset, end, k) ensures k < MAXBLOCKS && Ptr(f, SlotAt(ino, k)) != 0 {
      assert Touched(offset, last, k);
    }
  }

  /** To find a name takes one frame. */
  lemma FoundReads(f: Fs, name: seq<byte>)
    requires 0 < |f.inodes| && DirOk(f) && NameTaken(f, name)
    ensures |PathReads(f, name)| == 1
  {
    DirWalk(f, 0);
  }

  /** file_write can find or add every block that it gets to.  With the indirect block
      missing, the free blocks must not run out at the tenth direct block: they may last
      longer, or end earlier, when get_blk fails first. */
  ghost predicate CanWrite(f: Fs, ino: nat, offset: nat, end: nat) {
    && end <= 4096 * MAXBLOCKS
    && (offset < end && end > 40960 && Ptr(f, Direct(ino, 10)) == 0 ==> |f.avail| != Holes(f, ino, offset / 4096, 10))
  }

  /** Until the indirect block is needed, blocks are used up by the holes passed. */
  ghost predicate Supplied(f0: Fs, f: Fs, ino: nat, offset: nat, n: nat) {
    Ptr(f, Direct(ino, 10)) == 0 ==>
      && Ptr(f0, Direct(ino, 10)) == 0
      && |f.avail| - Holes(f, ino, (offset + n) / 4096, 10) == |f0.avail| - Holes(f0, ino, offset / 4096, 10)
  }

  /** file_write after n bytes. */
  ghost predicate Progress(f0: Fs, f: Fs, ino: nat, offset: nat, count: nat, data: seq<byte>, n: nat) {
    var t := Moved(offset, count, 0);
    && n <= t <= |data| && Moved(offset, count, n) == t && CanWrite(f0, ino, offset, offset + t)
    && Wrote(f0, f, ino, offset, data, n) && Supplied(f0, f, ino, offset, n)
    && (0 < n < count ==> (offset + n) % 4096 == 0) && Spent(f0, f, ino, offset, offset + n)
  }

  lemma ProgressStart(f: Fs, ino: nat, offset: nat, count: nat, data: seq<byte>)
    requires Own(f) && ino < |f.inodes| && Moved(offset, count, 0) <= |data|
    requires CanWrite(f, ino, offset, offset + Moved(offset, count, 0))
    ensures Progress(f, f, ino, offset, count, data, 0)
  {
    WroteStart(f, ino, offset, data);
    SpentNothing(f, ino, offset);
  }

  lemma ProgressRound(f0: Fs, f: Fs, ino: nat, offset: nat, count: nat, data: seq<byte>, n: nat)
    requires Progress(f0, f, ino, offset, count, data, n) && n < count
    ensures var pos := offset + n; var m := Min(4096 - pos % 4096, count);
      && 0 < m && pos < 4096 * MAXBLOCKS && pos % 4096 + m <= 4096 && n + m <= |data|
      && Own(f) && ino < |f.inodes| && (NeedsTable(f, ino, pos / 4096) ==> f.avail != {})
  {
    hide Own, Ptr, WroteBytes, KeptAt, Here;
  }

  lemma SuppliedMore(f0: Fs, f: Fs, g: Fs, ino: nat, offset: nat, n: nat, d: seq<byte>)
    requires Supplied(f0, f, ino, offset, n) && PutKeeps(f, g, ino, offset + n, d) && 0 < |d|
    requires n > 0 ==> (offset + n) % 4096 == 0
    ensures Supplied(f0, g, ino, offset, n + |d|)
  {
    hide Own, Ptr, View, ContentPut, SameContent, Patch;
    var k := (offset + n) / 4096;
    if k < 10 {
      HolesSame(f, g, ino, k, k + 1);
      assert (offset + n + |d|) / 4096 == k || (offset + n + |d|) / 4096 == k + 1;
    }
  }

  lemma ProgressMore(f0: Fs, f: Fs, g: Fs, ino: nat, offset: nat, count: nat, data: seq<byte>, n: nat, d: seq<byte>)
    requires Progress(f0, f, ino, offset, count, data, n) && n < count
    requires |d| == Min(4096 - (offset + n) % 4096, count) && n + |d| <= |data| && d == data[n..n + |d|]
    requires (offset + n) / 4096 < MAXBLOCKS && PutKeeps(f, g, ino, offset + n, d)
    ensures Progress(f0, g, ino, offset, count, data, n + |d|)
  {
    hide Own, Ptr, View, Supplied, Spent, Wrote, PutKeeps;
    SuppliedMore(f0, f, g, ino, offset, n, d);
    SpentMore(f0, f, g, ino, offset, offset + n, d);
    WroteMore(f0, f, g, ino, offset, data, n, d);
    NextBoundary(offset + n, 4096 - (offset + n) % 4096);
  }

  lemma ProgressEnd(f0: Fs, f: Fs, ino: nat, offset: nat, count: nat, data: seq<byte>, n: nat)
    requires Progress(f0, f, ino, offset, count, data, n)
    ensures Wrote(f0, f, ino, offset, data, n) && n <= Moved(offset, count, 0)
    ensures n >= count ==> n == Moved(offset, count, 0)
    ensures |f.avail| + Wanted(f0, ino, offset, offset + n) == |f0.avail|
  {
    hide Wrote, Supplied, CanWrite;
  }

  /** A round without room is where the write stops. */
  lemma ProgressStuck(f0: Fs, f: Fs, ino: nat, offset: nat, count: nat, data: seq<byte>, i: nat)
    requires offset <= i < offset + count && Progress(f0, f, ino, offset, count, data, i - offset)
    requires Own(f) && ino < |f.inodes| && i < 4096 * MAXBLOCKS && !Room(f, ino, i / 4096)
    ensures StopsAt(f0, ino, offset, offset + Moved(offset, count, 0), i)
  {
    ProgressRound(f0, f, ino, offset, count, data, i - offset);
    hide Own, Ptr, Wrote, Supplied, CanWrite, Spent, Wanted;
    NoRoomLeft(f, ino, i / 4096);
    SpentRound(f0, f, ino, offset, i, 1);
    SpentAll(f0, f, ino, offset, i);
  }

  /** A round fails exactly if fewer blocks are free than it takes. */
  lemma NoRoomLeft(f: Fs, ino: nat, k: nat)
    requires Own(f) && ino < |f.inodes| && k < MAXBLOCKS && (NeedsTable(f, ino, k) ==> f.avail != {})
    ensures Room(f, ino, k) <==> Lacking(f, ino, k) <= |f.avail|
    ensures !Room(f, ino, k) ==> Ptr(f, SlotAt(ino, k)) == 0
  {
    hide Own, Ptr;
    WalkKeeps(f, ino, k);
    assert SamePtr(f, WalkF(f, ino, k), SlotAt(ino, k));
  }

  /** PutF by cases, once walk_block has led to g. */
  lemma PutCases(f: Fs, g: Fs, ino: nat, pos: nat, data: seq<byte>)
    requires Own(f) && ino < |f.inodes| && pos < 4096 * MAXBLOCKS && pos % 4096 + |data| <= 4096
    requires (NeedsTable(f, ino, pos / 4096) ==> f.avail != {}) && g == WalkF(f, ino, pos / 4096)
    ensures var k, s := pos / 4096, SlotAt(ino, pos / 4096);
      && Own(g) && ino < |g.inodes| && (k >= 10 ==> Ptr(g, Direct(ino, 10)) != 0)
      && (Room(f, ino, k) <==> Ptr(g, s) != 0 || g.avail != {})
      && (Ptr(g, s) != 0 ==>
            && Puttable(f, ino, pos, data)
            && PutF(f, ino, pos, data) == WriteF(g, ino, k, pos % 4096, data))
      && (Ptr(g, s) == 0 && g.avail != {} && k < 10 ==>
            && Puttable(f, ino, pos, data) && Ptr(GrabF(g, s), s) == Lowest(g.avail) != 0 && Own(GrabF(g, s))
            && PutF(f, ino, pos, data) == WriteF(GrabF(g, s), ino, k, pos % 4096, data))
      && (Ptr(g, s) == 0 && g.avail != {} && k >= 10 ==>
            && Puttable(f, ino, pos, data) && Lowest(g.avail) < |g.blocks| && Lowest(g.avail) != 0
            && PutF(f, ino, pos, data) ==
                 StrayF(g, Lowest(g.avail), Patch(g.blocks[Lowest(g.avail)], pos % 4096, data)))
  {
    hide Own, Ptr, WalkF, GrabF, WriteF, StrayF, Patch;
    WalkKeeps(f, ino, pos / 4096);
    if g.avail != {} { assert FreeAt(g, Lowest(g.avail)); }
    HoldFirst(g, SlotAt(ino, pos / 4096));
    if Ptr(g, SlotAt(ino, pos / 4096)) == 0 && g.avail != {} { GrabKeeps(g, SlotAt(ino, pos / 4096)); }
  }

  lemma WriteReady(f0: Fs, f: Fs, ino: nat, offset: nat, count: nat, data: seq<byte>, i: nat)
    requires offset <= i < offset + count && Progress(f0, f, ino, offset, count, data, i - offset)
    ensures var m := Min(4096 - i % 4096, count);
      && 0 < m && i < 4096 * MAXBLOCKS && i % 4096 + m <= 4096 && i - offset + m <= |data|
      && Own(f) && ino < |f.inodes| && (NeedsTable(f, ino, i / 4096) ==> f.avail != {})
      && Wrote(f0, WalkF(f, ino, i / 4096), ino, offset, data, i - offset)
  {
    ProgressRound(f0, f, ino, offset, count, data, i - offset);
    ProgressEnd(f0, f, ino, offset, count, data, i - offset);
    WroteWalk(f0, f, ino, offset, data, i - offset, i / 4096);
  }

  lemma WriteMore(f0: Fs, f: Fs, g: Fs, ino: nat, offset: nat, count: nat, data: seq<byte>, i: nat, d: seq<byte>)
    requires offset <= i < offset + count && Progress(f0, f, ino, offset, count, data, i - offset)
    requires |d| == Min(4096 - i % 4096, count) && i - offset + |d| <= |data| && d == data[i - offset..i - offset + |d|]
    requires i < 4096 * MAXBLOCKS && Puttable(f, ino, i, d) && g == PutF(f, ino, i, d)
    ensures Progress(f0, g, ino, offset, count, data, i + |d| - offset)
  {
    hide Own, Ptr, Progress, PutKeeps, Puttable;
    PutIs(f, ino, i, d);
    ProgressMore(f0, f, g, ino, offset, count, data, i - offset, d);
  }

  lemma SpentAll(f0: Fs, f: Fs, ino: nat, offset: nat, i: nat)
    requires Spent(f0, f, ino, offset, i)
    ensures |f.avail| + Wanted(f0, ino, offset, i) == |f0.avail|
  {
  }

  /** Inodes in one block of the table. */
  const LOADED: nat := 128

  lemma LoadedPtr(f: Fs, n: nat, t: Slot)
    requires n <= |f.inodes| && t.ino < n
    ensures Ptr(f.(inodes := f.inodes[..n]), t) == Ptr(f, t)
  {
  }

  /** Seeing fewer inodes leaves each block its one owner, and each file its content. */
  lemma LoadedOwn(f: Fs, n: nat)
    requires Own(f) && n <= |f.inodes|
    ensures Own(f.(inodes := f.inodes[..n]))
  {
    var g := f.(inodes := f.inodes[..n]);
    forall i: nat ensures InodeAt(g, i) { assert InodeAt(f, i); }
    forall t ensures OwnedAt(g, t) { if IsSlot(g, t) { LoadedPtr(f, n, t); assert OwnedAt(f, t); } }
    forall t, u ensures ApartAt(g, t, u) {
      if IsSlot(g, t) && IsSlot(g, u) { LoadedPtr(f, n, t); LoadedPtr(f, n, u); assert ApartAt(f, t, u); }
    }
    forall c: nat ensures FreeAt(g, c) { assert FreeAt(f, c); }
  }

  class File {
    var inode: nat
    var offset: nat

    constructor (ino: nat)
      ensures inode == ino && offset == 0
    {
      inode, offset := ino, 0;
    }
  }

  class Volume {
    const machine: Machine
    const blocks: array<Block>
    const bitmap: array<nat>
    const inodes: array<Inode>

    /** read_superblock: the disk itself, and copies of its block bitmap and of the
        first block of its inode table. */
    constructor (m: Machine, disk: array<Block>, bm: array<nat>, table: array<Inode>)
      requires bm.Length == WORDS && table.Length >= LOADED
      requires Own(Fs(disk[..], FreeSet(bm[..]), table[..]))
      ensures Valid() && machine == m && blocks == disk && fresh(bitmap) && fresh(inodes) && fresh(this)
      ensures S() == old(Fs(disk[..], FreeSet(bm[..]), table[..LOADED]))
    {
      machine, blocks := m, disk;
      bitmap := new nat[WORDS](i requires 0 <= i < bm.Length reads bm => bm[i]);
      inodes := new Inode[LOADED](i requires 0 <= i < table.Length reads table => table[i]);
      new;
      assert bitmap[..] == bm[..] && inodes[..] == table[..LOADED];
      LoadedOwn(Fs(disk[..], FreeSet(bm[..]), table[..]), LOADED);
    }

    ghost function S(): Fs
      requires bitmap.Length == WORDS
      reads blocks, bitmap, inodes
    {
      Fs(blocks[..], FreeSet(bitmap[..]), inodes[..])
    }

    ghost predicate Valid()
      reads blocks, bitmap, inodes
    {
      && bitmap.Length == WORDS && Own(S())
      && bitmap != machine.count as object && bitmap != machine.link as object
    }

    /** *diskno */
    function Deref(c: Cell): (v: nat)
      requires c.InInode? ==> c.ino < inodes.Length && c.j < |inodes[c.ino].ptr|
      requires c.InCopy? ==> c.l < 2048
      requires !c.Nowhere?
      reads inodes
    {
      match c
      case InInode(ino, j) => inodes[ino].ptr[j]
      case InCopy(_, copy, l) => Le16(copy, l)
    }

    /** bread: a private copy of a disk block, in a frame that is never given back. */
    method Bread(block: nat) returns (b: Block, pp: nat)
      requires Valid() && block < blocks.Length && machine.Valid() && machine.free != []
      modifies machine, machine.mem, machine.count
      ensures machine.Valid() && b == blocks[block] && pp == old(machine.free)[0]
      ensures Has(old(machine.S()), machine.S(), S(), [block])
    {
      hide Own, FreeExact, Linked, Inv, Has, AllocF, FillF, BlockFrame;
      ghost var s := machine.S();
      KeepParts(s, BlockFrame(blocks[block]));
      var p := machine.AllocPage(0);
      pp := p;
      b := blocks[block];
      machine.FillFrame(pp, BlockFrame(b));
      HasOne(s, machine.S(), S(), block);
    }

    /** p->block[level] = bno; set_bitmap(blk_bitmap, bno) */
    method AssignDirect(ino: nat, j: nat, bno: nat)
      requires Valid() && ino < inodes.Length && j < 11 && Ptr(S(), Direct(ino, j)) == 0
      requires S().avail != {} && bno == Lowest(S().avail)
      modifies bitmap, inodes
      ensures Valid() && S() == GrabF(old(S()), Direct(ino, j)) && Ptr(S(), Direct(ino, j)) == bno != 0
    {
      ghost var f := S();
      assert InodeAt(f, ino) && FreeAt(f, bno);
      GrabKeeps(f, Direct(ino, j));
      inodes[ino] := inodes[ino].(ptr := inodes[ino].ptr[j := bno]);
      SetBitmap(bitmap, bno);
      assert S() == AssignF(f, Direct(ino, j), bno);
    }

    /** The place of block k in a private copy of the indirect block. */
    method ReadTable(ino: nat, fileno: nat) returns (cell: Cell)
      requires Valid() && ino < inodes.Length && 10 <= fileno < MAXBLOCKS && Ptr(S(), Direct(ino, 10)) != 0
      requires machine.Valid() && machine.free != []
      modifies machine, machine.mem, machine.count
      ensures machine.Valid() && CellOf(S(), ino, fileno, cell) && cell.pp == old(machine.free)[0]
      ensures Has(old(machine.S()), machine.S(), S(), WalkReads(S(), ino, fileno))
    {
      hide Machine.Valid, Inv, Has;
      assert InodeAt(S(), ino) && OwnedAt(S(), Direct(ino, 10));
      var level := (fileno - 10) / 2048 + 10;
      var blk, pp := Bread(inodes[ino].ptr[level]);
      cell := InCopy(pp, blk, (fileno - 10) % 2048);
    }

    /** walk_block.  Past the last block the cell is left as it was. */
    method WalkBlock(ino: nat, fileno: nat, diskno: Cell, alloc: bool) returns (r: int, cell: Cell)
      requires Valid() && ino < inodes.Length && machine.Valid()
      requires 10 <= fileno < MAXBLOCKS && (NeedsTable(S(), ino, fileno) ==> alloc) ==> machine.free != []
      modifies bitmap, inodes, machine, machine.mem, machine.count
      ensures Valid() && (r == 0 || r == -1) && machine.Valid()
      ensures fileno >= MAXBLOCKS ==> r == 0 && cell == diskno && S() == old(S())
      ensures fileno < MAXBLOCKS ==>
        && (r == 0 <==> old(NeedsTable(S(), ino, fileno)) ==> alloc && old(S().avail) != {})
        && (r == 0 ==> S() == WalkF(old(S()), ino, fileno) && CellOf(S(), ino, fileno, cell))
        && (r == -1 ==> S() == old(S()) && cell == if alloc then diskno else Nowhere)
      ensures Has(old(machine.S()), machine.S(), S(), WalkReads(S(), ino, fileno))
      ensures 10 <= fileno < MAXBLOCKS && r == 0 ==> old(machine.free) != [] && cell.pp == old(machine.free)[0]
    {
      hide Machine.Valid, Inv, Has, WalkReads;
      ghost var f, s := S(), machine.S();
      machine.ValidInv();
      cell := diskno;
      NoTable(s, f, ino, fileno);
      assert InodeAt(f, ino);
      if fileno < 10 {
        cell := InInode(ino, fileno);
      } else if fileno < 1024 * 2 + 10 {
        var level := (fileno - 10) / 2048 + 10;
        if inodes[ino].ptr[level] == 0 {
          if alloc {
            var bno := GetFreeNo(bitmap);
            if bno < 0 { return -1, diskno; }
            AssignDirect(ino, level, bno);
            assert machine.S() == s;
          } else {
            return -1, Nowhere;
          }
        }
        assert InodeAt(S(), ino);
        cell := ReadTable(ino, fileno);
      }
      r := 0;
    }

    /** What a cell holds is the pointer of its block. */
    lemma CellHolds(ino: nat, k: nat, c: Cell)
      requires Valid() && ino < inodes.Length && k < MAXBLOCKS && CellOf(S(), ino, k, c) && !NeedsTable(S(), ino, k)
      ensures !c.Nowhere? && (c.InInode? ==> c.ino < inodes.Length && c.j < |inodes[c.ino].ptr|) &&
            (c.InCopy? ==> c.l < 2048)
      ensures Deref(c) == Ptr(S(), SlotAt(ino, k))
      ensures Deref(c) != 0 ==> RESERVED <= Deref(c) < blocks.Length
    {
      assert InodeAt(S(), ino) && OwnedAt(S(), SlotAt(ino, k)) && OwnedAt(S(), Direct(ino, 10));
    }

    /** walk_block and, unless the pointer is null, bread: block k of a file. */
    method Fetch(ino: nat, fileno: nat) returns (r: int, found: bool, blk: Block)
      requires Valid() && ino < inodes.Length && fileno < MAXBLOCKS
      requires machine.Valid() && |machine.free| >= |BlockReads(S(), ino, fileno)|
      modifies bitmap, inodes, machine, machine.mem, machine.count
      ensures Valid() && S() == old(S()) && machine.Valid()
      ensures Has(old(machine.S()), machine.S(), S(), BlockReads(S(), ino, fileno))
      ensures r == if NeedsTable(S(), ino, fileno) then -1 else 0
      ensures found <==> Ptr(S(), SlotAt(ino, fileno)) != 0
      ensures found ==> blk == View(S(), ino, fileno)
    {
      hide Machine.Valid, Inv, Has, Takes, Own;
      ghost var f, s0 := S(), machine.S();
      var diskno;
      found, blk := false, ZeroBlock();
      r, diskno := WalkBlock(ino, fileno, Nowhere, false);
      ghost var s1 := machine.S();
      assert S() == f;
      if r == 0 {
        CellHolds(ino, fileno, diskno);
        found := Deref(diskno) != 0;
      }
      if found {
        HasTaken(s0, s1, f, WalkReads(f, ino, fileno));
        var b, pp := Bread(Deref(diskno));
        blk := b;
        HasMore(s0, s1, machine.S(), f, WalkReads(f, ino, fileno), [Deref(diskno)]);
      } else {
        assert BlockReads(f, ino, fileno) == WalkReads(f, ino, fileno);
      }
    }

    /** One round of file_read: copy m bytes of a block into the buffer. */
    method ReadBlock(ino: nat, pos: nat, m: nat, buf: array<byte>, to: nat) returns (ok: bool)
      requires Valid() && ino < inodes.Length && pos < 4096 * MAXBLOCKS && pos % 4096 + m <= 4096
      requires !NeedsTable(S(), ino, pos / 4096) && to + m <= buf.Length
      requires machine.Valid() && |machine.free| >= |BlockReads(S(), ino, pos / 4096)|
      modifies bitmap, inodes, buf, machine, machine.mem, machine.count
      ensures Valid() && S() == old(S()) && machine.Valid()
      ensures Has(old(machine.S()), machine.S(), S(), BlockReads(S(), ino, pos / 4096))
      ensures ok <==> Ptr(S(), SlotAt(ino, pos / 4096)) != 0
      ensures SameOutside(old(buf[..]), buf[..], to, to + m)
      ensures ok ==> buf[to..to + m] == View(S(), ino, pos / 4096)[pos % 4096..pos % 4096 + m]
      ensures !ok ==> buf[..] == old(buf[..])
    {
      hide Machine.Valid, Inv, Has, Own, Ptr, View, BlockReads, NeedsTable;
      var fileno, coffset := pos / 4096, pos % 4096;
      var r, found, blk := Fetch(ino, fileno);
      if !found { return false; }
      CopyOut(blk[coffset..coffset + m], buf, to);
      ok := true;
    }

    /** file_read: the bytes of the file from `offset` on, in whole rounds; -1
        exactly if it meets a block that is not allocated.  Each block read stays in a
        frame. */
    method FileRead(file: File, buf: array<byte>, start: nat, count: nat, offset: nat) returns (n: int)
      requires Valid() && file.inode < inodes.Length
      requires CanRead(S(), file.inode, offset, offset + Moved(offset, count, 0))
      requires start + Moved(offset, count, 0) <= buf.Length
      requires machine.Valid() && |machine.free| >= |FileReads(S(), file.inode, offset, count, 0)|
      modifies bitmap, inodes, buf, file`offset, machine, machine.mem, machine.count
      ensures Valid() && S() == old(S()) && machine.Valid()
      ensures var t := Moved(offset, count, 0);
        n == if Allocated(S(), file.inode, offset, offset + t) then t else -1
      ensures n != -1 ==> file.offset == old(file.offset) + n && Copied(S(), file.inode, offset, buf[..], start, n)
      ensures SameOutside(old(buf[..]), buf[..], start, start + Moved(offset, count, 0))
      ensures n == -1 ==>
        && 0 <= file.offset - old(file.offset) < Moved(offset, count, 0)
        && ReadUpTo(S(), file.inode, offset, old(buf[..]), buf[..], start, file.offset - old(file.offset))
      ensures Has(old(machine.S()), machine.S(), S(), FileReads(S(), file.inode, offset, count, 0))
    {
      hide Own, Ptr, View, Copied, Moved, CanRead, Allocated, SameOutside, NeedsTable, Reading, Touched, Machine.Valid, Inv,
            Has, FileReads, BlockReads, ReadSoFar, ReadUpTo;
      ghost var f, ino, bs, s0 := S(), file.inode, buf[..], machine.S();
      ReadingStart(f, ino, bs, start, offset, count);
      machine.ValidInv();
      ReadStart(s0, f, ino, offset, count);
      ghost var list := [];
      n := 0;
      while n < count
        invariant 0 <= n && Valid() && S() == f && file.offset == old(file.offset) + n && machine.Valid()
        invariant Reading(f, ino, bs, buf[..], start, offset, count, n)
        invariant ReadSoFar(s0, machine.S(), f, ino, offset, count, n, list)
        decreases count - n
      {
        ReadingRound(f, ino, bs, buf[..], start, offset, count, n);
        ReadingEnd(f, ino, bs, buf[..], start, offset, count, n);
        var filepos := offset + n;
        var remain := 4096 - filepos % 4096;
        var mincount := Min(remain, count);
        ghost var b0, t := buf[..], machine.S();
        ReadNext(s0, t, f, ino, offset, count, n, list);
        var ok := ReadBlock(file.inode, filepos, mincount, buf, start + n);
        ReadMore(s0, t, machine.S(), f, ino, offset, count, n, list);
        if !ok {
          NotAllocated(f, ino, offset, offset + Moved(offset, count, 0), filepos / 4096);
          ReadingStops(f, ino, bs, buf[..], start, offset, count, n);
          return -1;
        }
        ReadingMore(f, ino, bs, b0, buf[..], start, offset, count, n, mincount);
        list := list + BlockReads(f, ino, filepos / 4096);
        file.offset := file.offset + mincount;
        n := n + mincount;
      }
      ReadEnd(s0, machine.S(), f, ino, offset, count, n, list);
      ReadingEnd(f, ino, bs, buf[..], start, offset, count, n);
    }

    /** get_blk */
    method GetBlk() returns (bno: int)
      requires Valid()
      modifies bitmap
      ensures Valid()
      ensures bno < 0 <==> old(S().avail) == {}
      ensures bno < 0 ==> S() == old(S())
      ensures bno >= 0 ==> bno == Lowest(old(S().avail)) && S() == old(S().(avail := S().avail - {bno}))
    {
      bno := GetFreeNo(bitmap);
      if bno < 0 { return; }
      TakeOwn(S(), bno);
      ghost var f := S();
      SetBitmap(bitmap, bno);
      assert S() == f.(avail := f.avail - {bno});
    }

    /** *diskno = bno: into the inode, or into the private copy, which is lost. */
    method StoreCell(diskno: Cell, bno: nat, ghost f: Fs, ghost ino: nat, ghost k: nat, ghost s0: Vm)
      requires Own(f) && f.avail != {} && bno == Lowest(f.avail) && ino < |f.inodes| && k < MAXBLOCKS
      requires Valid() && S() == f.(avail := f.avail - {bno})
      requires CellOf(f, ino, k, diskno) && Ptr(f, SlotAt(ino, k)) == 0
      requires machine.Valid() && Takes(s0, machine.S(), if k < 10 then 0 else 1)
      requires diskno.InCopy? ==> TakenNow(s0, machine.S(), diskno.pp)
      modifies inodes, machine.mem
      ensures Valid() && machine.Valid() && Takes(s0, machine.S(), if k < 10 then 0 else 1)
      ensures k < 10 ==> S() == GrabF(f, SlotAt(ino, k))
      ensures k >= 10 ==> S() == old(S())
    {
      hide Machine.Valid, Inv, Takes, BlockFrame;
      assert InodeAt(f, ino);
      if diskno.InInode? {
        GrabKeeps(f, SlotAt(ino, k));
        assert FreeAt(f, bno);
        inodes[diskno.ino] := inodes[diskno.ino].(ptr := inodes[diskno.ino].ptr[diskno.j := bno]);
        assert S() == AssignF(f, SlotAt(ino, k), bno);
      } else {
        FillKept(diskno.pp, BlockFrame(PutLe16(diskno.copy, diskno.l, bno)), s0, 1);
      }
    }

    /** A frame that bread took gets new content. */
    method FillKept(pp: nat, d: Frame, ghost s0: Vm, ghost n: nat)
      requires machine.Valid() && Takes(s0, machine.S(), n) && pp < machine.mem.Length && TakenNow(s0, machine.S(), pp)
      modifies machine.mem
      ensures machine.Valid() && Takes(s0, machine.S(), n) && machine.S().role == old(machine.S()).role
    {
      hide Inv, FreeExact, Linked, Takes;
      FillTakes(s0, machine.S(), n, pp, d);
      machine.FillFrame(pp, d);
    }

    /** writeblk */
    method WriteBlk(bno: nat, b: Block)
      requires bno < blocks.Length
      modifies blocks
      ensures blocks[..] == old(blocks[..])[bno := b]
    {
      blocks[bno] := b;
    }

    /** The block of a cell; if it is null, a free one is stored there; -1 if none is free. */
    method EnsureBlock(diskno: Cell, ghost ino: nat, ghost k: nat, ghost s0: Vm) returns (bno: int)
      requires Valid() && ino < inodes.Length && k < MAXBLOCKS && CellOf(S(), ino, k, diskno) && !NeedsTable(S(), ino, k)
      requires machine.Valid() && Takes(s0, machine.S(), RoundReads(k) - 1)
      requires diskno.InCopy? ==> TakenNow(s0, machine.S(), diskno.pp)
      modifies bitmap, inodes, machine.mem
      ensures Valid() && machine.Valid() && Takes(s0, machine.S(), RoundReads(k) - 1) && machine.free == old(machine.free)
      ensures -1 <= bno < blocks.Length
      ensures var p := old(Ptr(S(), SlotAt(ino, k)));
        && (p != 0 ==> bno == p && S() == old(S()))
        && (p == 0 && old(S()).avail == {} ==> bno == -1 && S() == old(S()))
        && (p == 0 && old(S()).avail != {} ==>
              && bno == Lowest(old(S()).avail)
              && (if k < 10 then S() == GrabF(old(S()), SlotAt(ino, k)) else
                    S() == old(S()).(avail := old(S()).avail - {bno})))
    {
      hide Machine.Valid, Inv, Takes;
      CellHolds(ino, k, diskno);
      HoldFirst(S(), SlotAt(ino, k));
      bno := Deref(diskno);
      if bno == 0 {
        ghost var g := S();
        if g.avail != {} { assert FreeAt(g, Lowest(g.avail)); }
        bno := GetBlk();
        if bno < 0 { return -1; }
        StoreCell(diskno, bno, g, ino, k, s0);
      }
    }

    /** One round of file_write; false if no block is free. */
    method WriteBlock(ino: nat, pos: nat, data: seq<byte>) returns (ok: bool)
      requires Valid() && ino < inodes.Length && pos < 4096 * MAXBLOCKS && pos % 4096 + |data| <= 4096
      requires NeedsTable(S(), ino, pos / 4096) ==> S().avail != {}
      requires machine.Valid() && |machine.free| >= RoundReads(pos / 4096)
      modifies blocks, bitmap, inodes, machine, machine.mem, machine.count
      ensures Valid() && (ok <==> old(Room(S(), ino, pos / 4096))) && machine.Valid()
      ensures ok ==> S() == PutF(old(S()), ino, pos, data)
      ensures !ok ==> S() == WalkF(old(S()), ino, pos / 4096) && S().avail == {}
      ensures Takes(old(machine.S()), machine.S(), RoundReads(pos / 4096) - if ok then 0 else 1)
    {
      hide Machine.Valid, Inv, Has, Takes, Own, Ptr, PutF, WalkF, GrabF, Patch;
      ghost var f, s0 := S(), machine.S();
      var k, curpos := pos / 4096, pos % 4096;
      var r, diskno := WalkBlock(ino, k, Nowhere, true);
      ghost var g := S();
      PutCases(f, g, ino, pos, data);
      WalkTakes(s0, machine.S(), g, ino, k);
      var bno := EnsureBlock(diskno, ino, k, s0);
      if bno < 0 { return false; }
      PutOwn(f, ino, pos, data);
      WriteBack(bno, curpos, data, s0, RoundReads(k) - 1);
      assert S() == PutF(f, ino, pos, data);
      ok := true;
    }

    /** pbuf = bread(bno), memcpy into it, writeblk */
    method WriteBack(bno: nat, curpos: nat, data: seq<byte>, ghost s0: Vm, ghost n: nat)
      requires Valid() && bno < blocks.Length && curpos + |data| <= 4096
      requires machine.Valid() && machine.free != [] && Takes(s0, machine.S(), n)
      modifies blocks, machine, machine.mem, machine.count
      ensures blocks[..] == old(blocks[..])[bno := Patch(old(blocks[bno]), curpos, data)]
      ensures machine.Valid() && Takes(s0, machine.S(), n + 1)
    {
      hide Own, Takes, Patch, Has, Inv, FreeExact, Linked;
      ghost var s1 := machine.S();
      var pbuf, pp := Bread(bno);
      BreadTakes(s0, s1, machine.S(), S(), n, bno);
      pbuf := Patch(pbuf, curpos, data);
      FillKept(pp, BlockFrame(pbuf), s0, n + 1);
      WriteBlk(bno, pbuf);
    }

    /** The body of file_write's loop; 0 if no block is free. */
    method WriteRound(file: File, buf: seq<byte>, count: nat, offset: nat, i: nat, ghost f0: Fs) returns (mincount: nat)
      requires Valid() && file.inode < inodes.Length && offset <= i < offset + count && file.offset == i
      requires Progress(f0, S(), file.inode, offset, count, buf, i - offset)
      requires machine.Valid() && |machine.free| >= RoundReads(i / 4096)
      modifies blocks, bitmap, inodes, file`offset, machine, machine.mem, machine.count
      ensures Valid() && file.offset == i + mincount && machine.Valid()
      ensures mincount > 0 ==> Progress(f0, S(), file.inode, offset, count, buf, i + mincount - offset)
      ensures mincount == 0 ==> S().avail == {} && Wrote(f0, S(), file.inode, offset, buf, i - offset)
      ensures mincount == 0 ==> StopsAt(f0, file.inode, offset, offset + Moved(offset, count, 0), i)
      ensures mincount == 0 || mincount == Min(4096 - i % 4096, count)
      ensures Takes(old(machine.S()), machine.S(), RoundReads(i / 4096) - if mincount == 0 then 1 else 0)
    {
      hide Own, Ptr, Moved, Progress, Wrote, NeedsTable, CanWrite, PutF, WalkF, Room, StopsAt, Takes, Inv, Machine.Valid;
      ghost var f := S();
      WriteReady(f0, f, file.inode, offset, count, buf, i);
      var curcount := 4096 - i % 4096;
      mincount := Min(curcount, count);
      var d := buf[i - offset..i - offset + mincount];
      var ok := WriteBlock(file.inode, i, d);
      if !ok {
        ProgressStuck(f0, f, file.inode, offset, count, buf, i);
        return 0;
      }
      WriteMore(f0, f, S(), file.inode, offset, count, buf, i, d);
      file.offset := file.offset + mincount;
    }

    /** file_write from the file's offset on.  It fails if and only if the blocks that it
        touches lack more blocks than are free, and then stops at the first one that it
        cannot have.  Each round takes a frame for its block and one for the indirect block. */
    method FileWrite(file: File, buf: seq<byte>, count: nat) returns (r: int, ghost took: nat)
      requires Valid() && file.inode < inodes.Length
      requires Moved(file.offset, count, 0) <= |buf|
      requires CanWrite(S(), file.inode, file.offset, file.offset + Moved(file.offset, count, 0))
      requires machine.Valid() && |machine.free| >= TransferReads(file.offset, count, 0)
      modifies blocks, bitmap, inodes, file`offset, machine, machine.mem, machine.count
      ensures Valid() && file.offset >= old(file.offset) && machine.Valid()
      ensures Wrote(old(S()), S(), file.inode, old(file.offset), buf, file.offset - old(file.offset))
      ensures r == count || r == -1
      ensures r == count ==> file.offset - old(file.offset) == Moved(old(file.offset), count, 0)
      ensures var f, end := old(S()), old(file.offset) + Moved(old(file.offset), count, 0);
        && (r == -1 <==> |f.avail| < Wanted(f, file.inode, old(file.offset), end))
        && (r == -1 ==> S().avail == {} && StopsAt(f, file.inode, old(file.offset), end, file.offset))
        && (r == count ==> |S().avail| == |f.avail| - Wanted(f, file.inode, old(file.offset), end))
      ensures Takes(old(machine.S()), machine.S(), took)
      ensures took + TransferReads(old(file.offset), count, file.offset - old(file.offset)) ==
        TransferReads(old(file.offset), count, 0) + if r == -1 then RoundReads(file.offset / 4096) - 1 else 0
    {
      hide Own, Ptr, Moved, Progress, Wrote, NeedsTable, CanWrite, StopsAt, Wanted, Takes, Inv, Machine.Valid,
            TransferReads, RoundReads;
      ghost var f0, s0 := S(), machine.S();
      var offset := file.offset;
      ProgressStart(f0, file.inode, offset, count, buf);
      machine.ValidInv();
      WriteStart(s0, offset, count);
      var i := offset;
      took := 0;
      while i < offset + count
        invariant Valid() && i == file.offset >= offset && machine.Valid()
        invariant Progress(f0, S(), file.inode, offset, count, buf, i - offset)
        invariant Written(s0, machine.S(), offset, count, i - offset, took)
        decreases offset + count - i
      {
        ghost var t := machine.S();
        WriteNext(s0, t, offset, count, i - offset, took);
        var mincount := WriteRound(file, buf, count, offset, i, f0);
        took := WrittenMore(s0, t, machine.S(), offset, count, i - offset, took, mincount);
        if mincount == 0 {
          StopsShort(f0, file.inode, offset, offset + Moved(offset, count, 0), i);
          return -1, took;
        }
        i := i + mincount;
      }
      ProgressEnd(f0, S(), file.inode, offset, count, buf, i - offset);
      r := count;
    }

    /** walk_path: the inode that the first directory block gives for the name. */
    method WalkPath(fname: seq<byte>) returns (r: int, ino: nat)
      requires Valid() && DirOk(S()) && IsName(fname)
      requires machine.Valid() && |machine.free| >= |PathReads(S(), fname)|
      modifies bitmap, inodes, machine, machine.mem, machine.count
      ensures Valid() && S() == old(S()) && machine.Valid()
      ensures r == if NameTaken(S(), fname) then 0 else -1
      ensures r == 0 ==> Finds(S(), fname, ino)
      ensures Has(old(machine.S()), machine.S(), S(), PathReads(S(), fname))
    {
      hide Machine.Valid, Inv, Has, Takes, PathReads, DirReads, BlockReads, PathSoFar, Own, Ptr, View;
      ghost var f, s0 := S(), machine.S();
      machine.ValidInv();
      ghost var list := [];
      var i, j := 0, 0;
      ino := 0;
      PathStart(s0, f, fname);
      var fileno := inodes[0].size / 4096;
      while i < fileno
        invariant i <= fileno && Valid() && S() == f && inodes.Length > 0 && inodes[0].size == f.inodes[0].size
        invariant if i == 0 then j == 0 else j == ENTRIES && FirstNamed(View(f, 0, 0), fname, -1)
        invariant machine.Valid() && PathSoFar(s0, machine.S(), f, fname, i, list)
      {
        DirWalk(f, i);
        ghost var t := machine.S();
        PathNext(s0, t, f, fname, i, list);
        var found, b;
        r, found, b := Fetch(0, i);
        if r < 0 { return -2, ino; }
        PathMore(s0, t, machine.S(), f, fname, i, list);
        list := list + BlockReads(f, 0, i);
        if found {
          var e;
          e, j := FindName(b, fname, j);
          if e >= 0 { return 0, EntryIno(b, e); }
        }
        i := i + 1;
      }
      PathEnd(s0, machine.S(), f, fname, i, list);
      return -1, ino;
    }
  }

  lemma PutOwn(f: Fs, ino: nat, pos: nat, data: seq<byte>)
    requires Puttable(f, ino, pos, data)
    ensures Own(PutF(f, ino, pos, data))
  {
    PutIs(f, ino, pos, data);
  }

  /** Without an indirect block, or no need for it, nothing is read on the way. */
  lemma NoTable(s: Vm, f: Fs, ino: nat, k: nat)
    requires Inv(s)
    ensures NeedsTable(f, ino, k) || k < 10 || k >= MAXBLOCKS ==> Has(s, s, f, WalkReads(f, ino, k))
  {
    hide Inv, Has;
    HasNothing(s, f);
  }

  lemma WalkTakes(s: Vm, t: Vm, g: Fs, ino: nat, k: nat)
    requires Has(s, t, g, WalkReads(g, ino, k)) && k < MAXBLOCKS && (k >= 10 ==> Ptr(g, Direct(ino, 10)) != 0)
    ensures Takes(s, t, RoundReads(k) - 1) && |t.free| == |s.free| + 1 - RoundReads(k)
    ensures k >= 10 ==> s.free != [] && TakenNow(s, t, s.free[0])
  {
    hide Inv, Takes;
    HasTaken(s, t, g, WalkReads(g, ino, k));
    if k >= 10 { TakenFirst(s, t, g, Ptr(g, Direct(ino, 10))); }
  }

  lemma BreadTakes(s0: Vm, s: Vm, t: Vm, f: Fs, n: nat, b: nat)
    requires Takes(s0, s, n) && Has(s, t, f, [b])
    ensures Takes(s0, t, n + 1) && s.free != [] && TakenNow(s0, t, s.free[0])
  {
    hide Inv, KeepAllF;
    HasTaken(s, t, f, [b]);
    TakesTrans(s0, s, t, n, 1);
    TakenFirst(s, t, f, b);
    SizedAll(s0);
  }

  /** Rounds of file_write up to n bytes have taken their frames, and there are frames
      for the others. */
  ghost predicate Written(s: Vm, t: Vm, offset: nat, count: nat, n: nat, took: nat) {
    && Takes(s, t, took) && |t.free| >= TransferReads(offset, count, n)
    && took + TransferReads(offset, count, n) == TransferReads(offset, count, 0)
  }

  lemma WriteStart(s: Vm, offset: nat, count: nat)
    requires Inv(s) && |s.free| >= TransferReads(offset, count, 0)
    ensures Written(s, s, offset, count, 0, 0)
  {
    hide Inv, Takes;
    TakesNothing(s);
  }

  lemma WriteNext(s: Vm, t: Vm, offset: nat, count: nat, n: nat, took: nat)
    requires Written(s, t, offset, count, n, took) && n < count
    ensures |t.free| >= RoundReads((offset + n) / 4096)
  {
    hide Takes;
  }

  lemma WrittenMore(s: Vm, t: Vm, u: Vm, offset: nat, count: nat, n: nat, took: nat, m: nat) returns (now: nat)
    requires Written(s, t, offset, count, n, took) && n < count
    requires m == 0 || m == Min(4096 - (offset + n) % 4096, count)
    requires Takes(t, u, RoundReads((offset + n) / 4096) - if m == 0 then 1 else 0)
    ensures m > 0 ==> Written(s, u, offset, count, n + m, now)
    ensures m == 0 ==>
      && Takes(s, u, now)
      && now + TransferReads(offset, count, n) == TransferReads(offset, count, 0) + RoundReads((offset + n) / 4096) - 1
  {
    hide Takes, Inv;
    var c := RoundReads((offset + n) / 4096) - if m == 0 then 1 else 0;
    TakesTrans(s, t, u, took, c);
    TakesParts(t, u, c);
    now := took + c;
  }

  /** walk_path under way. */
  ghost predicate PathSoFar(s: Vm, t: Vm, f: Fs, name: seq<byte>, i: nat, list: seq<nat>)
    requires 0 < |f.inodes|
  {
    && Has(s, t, f, list) && |s.free| >= |PathReads(f, name)| && list + DirReads(f, i) == DirReads(f, 0)
    && (i > 0 ==> !NameTaken(f, name))
  }

  lemma PathStart(s: Vm, f: Fs, name: seq<byte>)
    requires Inv(s) && 0 < |f.inodes| && |s.free| >= |PathReads(f, name)|
    ensures PathSoFar(s, s, f, name, 0, [])
  {
    hide Inv, Has, NameTaken;
    HasNothing(s, f);
  }

  lemma PathNext(s: Vm, t: Vm, f: Fs, name: seq<byte>, i: nat, list: seq<nat>)
    requires 0 < |f.inodes| && PathSoFar(s, t, f, name, i, list) && i < f.inodes[0].size / 4096
    ensures |t.free| >= |BlockReads(f, 0, i)|
  {
    hide Inv, Takes, NameTaken, BlockReads;
    HasTaken(s, t, f, list);
  }

  lemma PathMore(s: Vm, t: Vm, u: Vm, f: Fs, name: seq<byte>, i: nat, list: seq<nat>)
    requires 0 < |f.inodes| && PathSoFar(s, t, f, name, i, list) && i < f.inodes[0].size / 4096
    requires Has(t, u, f, BlockReads(f, 0, i))
    ensures NameTaken(f, name) ==> Has(s, u, f, PathReads(f, name))
    ensures !NameTaken(f, name) ==> PathSoFar(s, u, f, name, i + 1, list + BlockReads(f, 0, i))
  {
    hide Inv, Has, Takes, NameTaken, BlockReads;
    HasMore(s, t, u, f, list, BlockReads(f, 0, i));
    var r := BlockReads(f, 0, i);
    assert list + (r + DirReads(f, i + 1)) == (list + r) + DirReads(f, i + 1);
    if NameTaken(f, name) { assert [] + r == r; }
  }

  lemma PathEnd(s: Vm, t: Vm, f: Fs, name: seq<byte>, i: nat, list: seq<nat>)
    requires 0 < |f.inodes| && PathSoFar(s, t, f, name, i, list) && i >= f.inodes[0].size / 4096
    requires !NameTaken(f, name)
    ensures Has(s, t, f, PathReads(f, name))
  {
    hide Inv, Has, NameTaken;
    assert list + [] == list;
  }

  /** memcpy */
  method CopyOut(data: seq<byte>, buf: array<byte>, to: nat)
    requires to + |data| <= buf.Length
    modifies buf
    ensures buf[to..to + |data|] == data && SameOutside(old(buf[..]), buf[..], to, to + |data|)
  {
    var i := 0;
    while i < |data|
      invariant 0 <= i <= |data|
      invariant forall x :: 0 <= x < i ==> buf[to + x] == data[x]
      invariant forall x :: 0 <= x < buf.Length && !(to <= x < to + i) ==> buf[x] == old(buf[x])
    {
      buf[to + i] := data[i];
      i := i + 1;
    }
  }
}
