/** What one round of the kernel's file_write does to the file system, and what a
    whole write leaves.  A block number stored through the indirect block goes
    into a private copy: the data then lands in a block that no file names. */
module Writing {
  import opened Bitmap
  import opened Disk
  import opened Layout

  /** Byte `pos` of a file. */
  function ByteAt(f: Fs, ino: nat, pos: nat): byte { View(f, ino, pos / 4096)[pos % 4096] }

  /** Block k is touched by a transfer from offset up to end. */
  predicate Touched(offset: nat, end: nat, k: nat) {
    offset < end && offset / 4096 <= k && 4096 * k < end
  }

  /** Every block touched up to end is allocated. */
  ghost predicate Allocated(f: Fs, ino: nat, offset: nat, end: nat) {
    forall k: nat {:trigger Touched(offset, end, k)} ::
      Touched(offset, end, k) ==> k < MAXBLOCKS && Ptr(f, SlotAt(ino, k)) != 0
  }

  /** Data written to block k stays with the file: its pointer is in the inode, or
      it is allocated already. */
  ghost predicate Durable(f: Fs, ino: nat, k: nat) { k < 10 || Ptr(f, SlotAt(ino, k)) != 0 }

  /** Block b is allocated in the bitmap but no pointer names it. */
  ghost function StrayF(f: Fs, b: nat, blk: Block): Fs
    requires b < |f.blocks|
  {
    Fs(f.blocks[b := blk], f.avail - {b}, f.inodes)
  }

  lemma StrayKeeps(f: Fs, b: nat, blk: Block)
    requires Own(f) && b in f.avail
    ensures b < |f.blocks|
    ensures Own(StrayF(f, b, blk)) && SamePtrs(f, StrayF(f, b, blk)) && SameContent(f, StrayF(f, b, blk))
  {
    assert FreeAt(f, b);
    var h, g := f.(avail := f.avail - {b}), StrayF(f, b, blk);
    TakeOwn(f, b);
    forall s | IsSlot(h, s) ensures Ptr(h, s) != b { assert OwnedAt(f, s); }
    assert IsData(h, b) by {
      forall i: nat {:trigger Direct(i, 10)} | i < |f.inodes| ensures Ptr(h, Direct(i, 10)) != b {
        assert IsSlot(h, Direct(i, 10));
      }
    }
    DataOwn(h, b, blk);
    forall t | IsSlot(f, t) ensures SamePtr(f, g, t) { DataPtr(h, b, blk, t); }
    forall i: nat, n: nat | i < |f.inodes| && n < MAXBLOCKS ensures SameView(f, g, i, n) {
      StrayView(h, b, blk, i, n);
    }
  }

  lemma TakeOwn(f: Fs, b: nat)
    requires Own(f)
    ensures Own(f.(avail := f.avail - {b}))
  {
    var h := f.(avail := f.avail - {b});
    forall i: nat ensures InodeAt(h, i) { assert InodeAt(f, i); }
    forall t ensures OwnedAt(h, t) { assert OwnedAt(f, t); }
    forall t, u ensures ApartAt(h, t, u) { assert ApartAt(f, t, u); }
    forall c: nat ensures FreeAt(h, c) { assert FreeAt(f, c); }
  }

  /** A round at byte pos can be done: no allocation in it fails. */
  ghost predicate Puttable(f: Fs, ino: nat, pos: nat, data: seq<byte>) {
    && Own(f) && ino < |f.inodes| && pos < 4096 * MAXBLOCKS && pos % 4096 + |data| <= 4096
    && Room(f, ino, pos / 4096)
  }

  /** One round of file_write. */
  ghost function PutF(f: Fs, ino: nat, pos: nat, data: seq<byte>): Fs
    requires Puttable(f, ino, pos, data)
  {
    var k := pos / 4096;
    WalkKeeps(f, ino, k);
    var g := WalkF(f, ino, k);
    if k < 10 || Ptr(g, SlotAt(ino, k)) != 0 then
      WriteF(FindF(f, ino, k), ino, k, pos % 4096, data)
    else
      var b := Lowest(g.avail);
      assert FreeAt(g, b);
      StrayF(g, b, Patch(g.blocks[b], pos % 4096, data))
  }

  function Hole(f: Fs, ino: nat, k: nat): nat { if Ptr(f, SlotAt(ino, k)) == 0 then 1 else 0 }

  /** The blocks from the k-th to before the n-th that are not allocated. */
  function Holes(f: Fs, ino: nat, k: nat, n: nat): nat
    decreases n - k
  {
    if k >= n then 0 else Hole(f, ino, k) + Holes(f, ino, k + 1, n)
  }

  lemma {:induction false} HolesLast(f: Fs, ino: nat, k: nat, n: nat)
    requires k <= n
    ensures Holes(f, ino, k, n + 1) == Holes(f, ino, k, n) + Hole(f, ino, n)
    decreases n - k
  {
    if k < n { HolesLast(f, ino, k + 1, n); }
  }

  /** What stays of the pointers when block k of file ino is written. */
  ghost predicate PutPtrs(f: Fs, g: Fs, ino: nat, k: nat) {
    && (forall n: nat {:trigger SlotAt(ino, n)} ::
          n < MAXBLOCKS && (n != k || k >= 10) ==> SamePtr(f, g, SlotAt(ino, n)))
    && (Ptr(f, SlotAt(ino, k)) != 0 ==> SamePtr(f, g, SlotAt(ino, k)))
    && (Durable(f, ino, k) ==> Ptr(g, SlotAt(ino, k)) != 0)
    && (Ptr(f, Direct(ino, 10)) != 0 || k >= 10 <==> Ptr(g, Direct(ino, 10)) != 0)
  }

  /** The blocks that a round at block k takes. */
  ghost function Lacking(f: Fs, ino: nat, k: nat): nat {
    Hole(f, ino, k) + if NeedsTable(f, ino, k) then 1 else 0
  }

  /** Where the block is durable, a round writes through its pointer. */
  lemma PutIsWrite(f: Fs, ino: nat, pos: nat, data: seq<byte>)
    requires Puttable(f, ino, pos, data) && Durable(f, ino, pos / 4096)
    ensures var k, h := pos / 4096, FindF(f, ino, pos / 4096);
      && Own(h) && ino < |h.inodes| && Ptr(h, SlotAt(ino, k)) != 0
      && (Ptr(f, SlotAt(ino, k)) != 0 ==> Ptr(h, SlotAt(ino, k)) == Ptr(f, SlotAt(ino, k)))
      && PutF(f, ino, pos, data) == WriteF(h, ino, k, pos % 4096, data)
  {
    hide Own, Ptr, View, Patch, GrabF, SameContent;
    FindKeeps(f, ino, pos / 4096);
    WalkKeeps(f, ino, pos / 4096);
    var w, s := WalkF(f, ino, pos / 4096), SlotAt(ino, pos / 4096);
    assert SamePtr(f, w, s);
  }

  lemma SameHere(f: Fs, h: Fs, ino: nat, k: nat)
    requires SameContent(f, h) && ino < |f.inodes| && k < MAXBLOCKS
    ensures View(h, ino, k) == View(f, ino, k)
  {
    hide View;
    assert SameView(f, h, ino, k);
  }

  lemma PutDurable(f: Fs, ino: nat, pos: nat, data: seq<byte>)
    requires Puttable(f, ino, pos, data) && Durable(f, ino, pos / 4096)
    ensures var k, g := pos / 4096, PutF(f, ino, pos, data);
      && Own(g) && PutPtrs(f, g, ino, k) && |g.avail| == |f.avail| - Lacking(f, ino, k)
      && ContentPut(f, g, ino, k, Patch(View(f, ino, k), pos % 4096, data))
  {
    hide Own, Ptr, View, FindF, WriteF, PutF, WalkF, Patch, SameContent, ContentPut, Room;
    var k := pos / 4096;
    var h, g := FindF(f, ino, k), PutF(f, ino, pos, data);
    FindKeeps(f, ino, k);
    PutIsWrite(f, ino, pos, data);
    WriteKeeps(h, ino, k, pos % 4096, data);
    SameHere(f, h, ino, k);
    SameSelf(g);
    assert SamePtr(h, g, SlotAt(ino, k)) && SamePtr(h, g, Direct(ino, 10));
    PutBetween(f, h, g, g, ino, k, Patch(View(f, ino, k), pos % 4096, data));
    forall n: nat {:trigger SlotAt(ino, n)} | n < MAXBLOCKS && n != k ensures SamePtr(f, g, SlotAt(ino, n)) {
      assert SamePtr(f, h, SlotAt(ino, n)) && SamePtr(h, g, SlotAt(ino, n));
    }
  }

  /** Written through an unallocated pointer of the indirect block, data is lost:
      every file reads as before. */
  lemma PutLost(f: Fs, ino: nat, pos: nat, data: seq<byte>)
    requires Puttable(f, ino, pos, data) && !Durable(f, ino, pos / 4096)
    ensures var k, g := pos / 4096, PutF(f, ino, pos, data);
      && Own(g) && PutPtrs(f, g, ino, k) && SameContent(f, g) && Ptr(g, SlotAt(ino, k)) == 0
      && |g.avail| == |f.avail| - Lacking(f, ino, k)
  {
    var k := pos / 4096;
    var w := WalkF(f, ino, k);
    WalkKeeps(f, ino, k);
    assert SamePtr(f, w, SlotAt(ino, k));
    assert Ptr(w, SlotAt(ino, k)) == 0;
    var b, g := Lowest(w.avail), PutF(f, ino, pos, data);
    assert FreeAt(w, b);
    var blk := Patch(w.blocks[b], pos % 4096, data);
    assert g == StrayF(w, b, blk);
    StrayKeeps(w, b, blk);
    hide Own, Ptr, View, PutF, WalkF, StrayF, SameContent;
    assert SamePtr(w, g, SlotAt(ino, k)) && SamePtr(w, g, Direct(ino, 10));
    SameTrans(f, w, g);
    forall n: nat {:trigger SlotAt(ino, n)} | n < MAXBLOCKS ensures SamePtr(f, g, SlotAt(ino, n)) {
      assert SamePtr(f, w, SlotAt(ino, n)) && SamePtr(w, g, SlotAt(ino, n));
    }
  }

  // --------------------------------------------------------- a whole file_write

  /** Byte p of file i once n bytes were written at `offset` of file ino: the new
      byte where the block is durable, and everywhere else the old one. */
  ghost predicate WroteAt(f0: Fs, f: Fs, ino: nat, offset: nat, data: seq<byte>, n: nat, i: nat, p: nat) {
    ByteAt(f, i, p) ==
      if i == ino && offset <= p < offset + n && p - offset < |data| && Durable(f0, ino, p / 4096)
      then data[p - offset] else ByteAt(f0, i, p)
  }

  ghost predicate KeptAt(f0: Fs, f: Fs, ino: nat, k: nat) {
    k >= 10 || Ptr(f0, SlotAt(ino, k)) != 0 ==> SamePtr(f0, f, SlotAt(ino, k))
  }

  ghost predicate HereAt(f0: Fs, f: Fs, ino: nat, offset: nat, end: nat, k: nat) {
    Touched(offset, end, k) && Durable(f0, ino, k) ==> Ptr(f, SlotAt(ino, k)) != 0
  }

  ghost predicate WroteBytes(f0: Fs, f: Fs, ino: nat, offset: nat, data: seq<byte>, n: nat) {
    forall i: nat, p: nat {:trigger WroteAt(f0, f, ino, offset, data, n, i, p)} ::
      i < |f0.inodes| && p < 4096 * MAXBLOCKS ==> WroteAt(f0, f, ino, offset, data, n, i, p)
  }

  /** Every durable block touched so far is allocated. */
  ghost predicate Here(f0: Fs, f: Fs, ino: nat, offset: nat, end: nat) {
    forall k: nat {:trigger HereAt(f0, f, ino, offset, end, k)} :: k < MAXBLOCKS ==> HereAt(f0, f, ino, offset, end, k)
  }

  /** f is f0 after n bytes were written. */
  ghost predicate Wrote(f0: Fs, f: Fs, ino: nat, offset: nat, data: seq<byte>, n: nat) {
    && Own(f) && InodesKept(f0, f, ino) && ino < |f0.inodes| && n <= |data|
    && (Ptr(f0, Direct(ino, 10)) != 0 ==> Ptr(f, Direct(ino, 10)) != 0)
    && WroteBytes(f0, f, ino, offset, data, n)
    && (forall k: nat {:trigger KeptAt(f0, f, ino, k)} :: k < MAXBLOCKS ==> KeptAt(f0, f, ino, k))
    && Here(f0, f, ino, offset, offset + n)
  }

  lemma WroteStart(f: Fs, ino: nat, offset: nat, data: seq<byte>)
    requires Own(f) && ino < |f.inodes|
    ensures Wrote(f, f, ino, offset, data, 0)
  {
    hide Own, Ptr, ByteAt;
  }

  lemma PatchAt(b: Block, at: nat, d: seq<byte>, o: nat)
    requires at + |d| <= 4096 && o < 4096
    ensures Patch(b, at, d)[o] == if at <= o < at + |d| then d[o - at] else b[o]
  {
  }

  lemma InBlock(pos: nat, m: nat, p: nat)
    requires pos % 4096 + m <= 4096 && pos <= p < pos + m
    ensures p / 4096 == pos / 4096 && p % 4096 == pos % 4096 + (p - pos)
  {
  }

  lemma WroteMoreAt(f0: Fs, f: Fs, g: Fs, ino: nat, offset: nat, data: seq<byte>, n: nat, d: seq<byte>, i: nat, p: nat)
    requires n + |d| <= |data| && d == data[n..n + |d|] && WroteAt(f0, f, ino, offset, data, n, i, p)
    requires (offset + n) % 4096 + |d| <= 4096 && i < |f.inodes| && p < 4096 * MAXBLOCKS
    requires var k := (offset + n) / 4096; Durable(f0, ino, k) ==>
      ContentPut(f, g, ino, k, Patch(View(f, ino, k), (offset + n) % 4096, d))
    requires !Durable(f0, ino, (offset + n) / 4096) ==> SameContent(f, g)
    ensures WroteAt(f0, g, ino, offset, data, n + |d|, i, p)
  {
    hide View, Durable, Patch;
    var pos := offset + n;
    var k := pos / 4096;
    if offset + n <= p < offset + n + |d| { InBlock(pos, |d|, p); }
    if Durable(f0, ino, k) {
      var blk := Patch(View(f, ino, k), pos % 4096, d);
      assert ViewPut(f, g, ino, k, blk, i, p / 4096);
      PatchAt(View(f, ino, k), pos % 4096, d, p % 4096);
    } else {
      assert SameView(f, g, i, p / 4096);
    }
  }

  /** One round keeps the pointers and the content in step. */
  ghost predicate PutKeeps(f: Fs, g: Fs, ino: nat, pos: nat, d: seq<byte>) {
    && Own(g) && |g.inodes| == |f.inodes| && PutPtrs(f, g, ino, pos / 4096) && pos % 4096 + |d| <= 4096
    && (if Durable(f, ino, pos / 4096)
        then ContentPut(f, g, ino, pos / 4096, Patch(View(f, ino, pos / 4096), pos % 4096, d))
        else SameContent(f, g))
    && |g.avail| == |f.avail| - Lacking(f, ino, pos / 4096) && InodesKept(f, g, ino)
  }

  lemma PutInodes(f: Fs, ino: nat, pos: nat, d: seq<byte>)
    requires Puttable(f, ino, pos, d)
    ensures InodesKept(f, PutF(f, ino, pos, d), ino)
  {
    hide Own, Ptr, View, FindF, Patch, NeedsTable;
    var k := pos / 4096;
    FindInodes(f, ino, k);
    WalkInodes(f, ino, k);
  }

  lemma WalkInodes(f: Fs, ino: nat, k: nat)
    requires Own(f) && ino < |f.inodes| && (NeedsTable(f, ino, k) ==> f.avail != {})
    ensures InodesKept(f, WalkF(f, ino, k), ino)
  {
    hide Ptr;
    WalkKeeps(f, ino, k);
  }

  lemma PutIs(f: Fs, ino: nat, pos: nat, d: seq<byte>)
    requires Puttable(f, ino, pos, d)
    ensures PutKeeps(f, PutF(f, ino, pos, d), ino, pos, d)
  {
    hide Own, Ptr, View, PutF, Patch;
    PutInodes(f, ino, pos, d);
    if Durable(f, ino, pos / 4096) { PutDurable(f, ino, pos, d); } else { PutLost(f, ino, pos, d); }
  }

  lemma KeptMore(f0: Fs, f: Fs, g: Fs, ino: nat, pos: nat)
    requires pos / 4096 < MAXBLOCKS && PutPtrs(f, g, ino, pos / 4096)
    requires forall k: nat {:trigger KeptAt(f0, f, ino, k)} :: k < MAXBLOCKS ==> KeptAt(f0, f, ino, k)
    ensures forall k: nat {:trigger KeptAt(f0, g, ino, k)} :: k < MAXBLOCKS ==> KeptAt(f0, g, ino, k)
    ensures Durable(f, ino, pos / 4096) <==> Durable(f0, ino, pos / 4096)
  {
    hide Ptr;
    assert KeptAt(f0, f, ino, pos / 4096);
    forall k: nat | k < MAXBLOCKS ensures KeptAt(f0, g, ino, k) {
      assert KeptAt(f0, f, ino, k);
      var s := SlotAt(ino, k);
      if k != pos / 4096 || k >= 10 { assert SamePtr(f, g, s); }
    }
  }

  lemma {:induction false} HolesSame(f: Fs, g: Fs, ino: nat, k: nat, m: nat)
    requires PutPtrs(f, g, ino, k) && k < m
    ensures Holes(g, ino, m, 10) == Holes(f, ino, m, 10)
    decreases 10 - m
  {
    hide Ptr;
    if m < 10 {
      assert SamePtr(f, g, SlotAt(ino, m));
      HolesSame(f, g, ino, k, m + 1);
    }
  }

  lemma HereMore(f0: Fs, f: Fs, g: Fs, ino: nat, offset: nat, pos: nat, m: nat)
    requires pos / 4096 < MAXBLOCKS && PutPtrs(f, g, ino, pos / 4096) && offset <= pos && pos % 4096 + m <= 4096
    requires Durable(f, ino, pos / 4096) <==> Durable(f0, ino, pos / 4096)
    requires Here(f0, f, ino, offset, pos)
    ensures Here(f0, g, ino, offset, pos + m)
  {
    hide Ptr;
    var end := pos + m;
    forall k: nat | k < MAXBLOCKS ensures HereAt(f0, g, ino, offset, end, k) {
      if Touched(offset, end, k) && k != pos / 4096 {
        assert HereAt(f0, f, ino, offset, pos, k);
        assert SamePtr(f, g, SlotAt(ino, k));
      }
    }
  }

  /** A round carries the write further. */
  lemma WroteMore(f0: Fs, f: Fs, g: Fs, ino: nat, offset: nat, data: seq<byte>, n: nat, d: seq<byte>)
    requires Wrote(f0, f, ino, offset, data, n) && n + |d| <= |data| && d == data[n..n + |d|]
    requires (offset + n) / 4096 < MAXBLOCKS && PutKeeps(f, g, ino, offset + n, d)
    ensures Wrote(f0, g, ino, offset, data, n + |d|)
  {
    hide Own, Ptr, View, Durable, Patch, ByteAt, KeptAt, Here;
    KeptMore(f0, f, g, ino, offset + n);
    HereMore(f0, f, g, ino, offset, offset + n, |d|);
    var n1 := n + |d|;
    forall i: nat, p: nat | i < |f0.inodes| && p < 4096 * MAXBLOCKS
      ensures WroteAt(f0, g, ino, offset, data, n1, i, p)
    {
      assert WroteAt(f0, f, ino, offset, data, n, i, p);
      WroteMoreAt(f0, f, g, ino, offset, data, n, d, i, p);
    }
  }

  /** Reading back over a write gives a new byte exactly where the block was
      durable; elsewhere it gives the zero that was there before. */
  lemma ReadBack(f0: Fs, f: Fs, ino: nat, offset: nat, data: seq<byte>, n: nat, p: nat)
    requires Wrote(f0, f, ino, offset, data, n) && offset <= p < offset + n && p < 4096 * MAXBLOCKS
    ensures ByteAt(f, ino, p) == if Durable(f0, ino, p / 4096) then data[p - offset] else 0
  {
    hide Ptr;
    assert WroteAt(f0, f, ino, offset, data, n, ino, p);
  }

  /** Adding the indirect block takes nothing back. */
  lemma WroteWalk(f0: Fs, f: Fs, ino: nat, offset: nat, data: seq<byte>, n: nat, k: nat)
    requires Wrote(f0, f, ino, offset, data, n) && (NeedsTable(f, ino, k) ==> f.avail != {})
    ensures Wrote(f0, WalkF(f, ino, k), ino, offset, data, n)
  {
    var g, end := WalkF(f, ino, k), offset + n;
    WalkKeeps(f, ino, k);
    WalkInodes(f, ino, k);
    assert Ptr(f, Direct(ino, 10)) != 0 ==> g == f;
    hide Own, Ptr, View, WalkF, Durable;
    forall j: nat | j < MAXBLOCKS ensures KeptAt(f0, g, ino, j) {
      assert KeptAt(f0, f, ino, j) && SamePtr(f, g, SlotAt(ino, j));
    }
    forall j: nat | j < MAXBLOCKS ensures HereAt(f0, g, ino, offset, end, j) {
      assert HereAt(f0, f, ino, offset, end, j) && SamePtr(f, g, SlotAt(ino, j));
    }
    forall i: nat, p: nat | i < |f0.inodes| && p < 4096 * MAXBLOCKS ensures WroteAt(f0, g, ino, offset, data, n, i, p) {
      assert WroteAt(f0, f, ino, offset, data, n, i, p) && SameView(f, g, i, p / 4096);
    }
  }

  /** Every block touched up to end keeps what is written to it. */
  ghost predicate AllDurable(f: Fs, ino: nat, offset: nat, end: nat) {
    forall k: nat {:trigger Touched(offset, end, k)} :: Touched(offset, end, k) ==> k < MAXBLOCKS && Durable(f, ino, k)
  }

  lemma DurableAllocated(f0: Fs, f: Fs, ino: nat, offset: nat, end: nat)
    requires Here(f0, f, ino, offset, end) && AllDurable(f0, ino, offset, end)
    ensures Allocated(f, ino, offset, end)
  {
    forall k: nat | Touched(offset, end, k) ensures k < MAXBLOCKS && Ptr(f, SlotAt(ino, k)) != 0 {
      assert HereAt(f0, f, ino, offset, end, k);
    }
  }

  /** After a write of durable blocks the range is allocated and reads as written. */
  lemma WrittenReads(f0: Fs, f: Fs, ino: nat, offset: nat, data: seq<byte>, n: nat, i: nat)
    requires Wrote(f0, f, ino, offset, data, n) && AllDurable(f0, ino, offset, offset + n) && i < n
    ensures ByteAt(f, ino, offset + i) == data[i]
  {
    hide Own, Ptr, View, ByteAt, Durable;
    assert Touched(offset, offset + n, (offset + i) / 4096);
    assert WroteAt(f0, f, ino, offset, data, n, ino, offset + i);
  }
}
