/** How the image builder lays files and directories out, as steps on the value
    `Fs`: what one round of write_file does, what a file looks like after c rounds,
    and what a new directory entry changes. */
module Layout {
  import opened Bitmap
  import opened Disk
  import opened Directory

  function Chunks(size: nat): nat { (size + 4095) / 4096 }

  /** Blocks taken by the first c chunks of a file, its indirect block included. */
  function Used(c: nat): nat { Min(c, MAXBLOCKS) + if c > 10 then 1 else 0 }

  function ChunkAt(file: seq<byte>, c: nat): (d: seq<byte>)
    requires 4096 * c <= |file|
    ensures |d| <= 4096
  {
    file[4096 * c..Min(4096 * c + 4096, |file|)]
  }

  /** Block k of a new file once its first c chunks are stored.  Past the last
      pointer every chunk lands in the last block. */
  function Laid(file: seq<byte>, c: nat, k: nat): Block
    requires c <= Chunks(|file|)
  {
    if c == 0 then ZeroBlock()
    else if k == Min(c - 1, MAXBLOCKS - 1) then Patch(Laid(file, c - 1, k), 0, ChunkAt(file, c - 1))
    else Laid(file, c - 1, k)
  }

  /** Byte o of block k of the file, zeros after its end. */
  function FileByte(file: seq<byte>, k: nat, o: nat): byte {
    if 4096 * k + o < |file| then file[4096 * k + o] else 0
  }

  lemma {:induction false} LaidIs(file: seq<byte>, c: nat, k: nat, o: nat)
    requires c <= Chunks(|file|) && c <= MAXBLOCKS && o < 4096
    ensures Laid(file, c, k)[o] == if k < c then FileByte(file, k, o) else 0
  {
    if c > 0 { LaidIs(file, c - 1, k, o); }
  }

  /** A file of at most 2058 blocks is laid out faithfully. */
  lemma LaidFaithfully(file: seq<byte>, k: nat, o: nat)
    requires |file| <= 4096 * MAXBLOCKS && o < 4096
    ensures Laid(file, Chunks(|file|), k)[o] == FileByte(file, k, o)
  {
    LaidIs(file, Chunks(|file|), k, o);
  }

  /** Of a longer file every chunk from number 2057 on goes to block 2057, one over the
      other: what that block begins with is the last chunk. */
  lemma {:induction false} LaidOver(file: seq<byte>, c: nat, o: nat)
    requires MAXBLOCKS < c <= Chunks(|file|) && o < |ChunkAt(file, c - 1)|
    ensures Laid(file, c, MAXBLOCKS - 1)[o] == FileByte(file, c - 1, o)
  {
    var d := ChunkAt(file, c - 1);
    assert Patch(Laid(file, c - 1, MAXBLOCKS - 1), 0, d)[o] == d[o];
  }

  /** Byte o of block k of the stored file is the file's, or 0 past its end. */
  predicate FaithfulAt(file: seq<byte>, k: nat, o: nat)
    requires o < 4096
  {
    Laid(file, Chunks(|file|), k)[o] == FileByte(file, k, o)
  }

  /** Every block that an inode can name holds what it should. */
  ghost predicate Faithful(file: seq<byte>) {
    forall k: nat, o: nat {:trigger FaithfulAt(file, k, o)} :: k < MAXBLOCKS && o < 4096 ==> FaithfulAt(file, k, o)
  }

  /** A file that is not stored as it is: zeros, but for the first byte of the last chunk. */
  function Spoiled(n: nat): (file: seq<byte>)
    requires n > 4096 * MAXBLOCKS
    ensures |file| == n
  {
    seq(n, i => if i == 4096 * (Chunks(n) - 1) then 1 else 0)
  }

  lemma SpoiledIsNot(n: nat)
    requires n > 4096 * MAXBLOCKS
    ensures !Faithful(Spoiled(n))
  {
    var file, c := Spoiled(n), Chunks(n);
    assert |ChunkAt(file, c - 1)| > 0;
    LaidOver(file, c, 0);
    assert !FaithfulAt(file, MAXBLOCKS - 1, 0);
  }

  /** The length of a file decides: all files of n bytes are stored faithfully if and
      only if n bytes fit into 2058 blocks. */
  lemma FaithfulIff(n: nat)
    ensures (forall file: seq<byte> {:trigger Faithful(file)} :: |file| == n ==> Faithful(file)) <==> n <= 4096 * MAXBLOCKS
  {
    if n <= 4096 * MAXBLOCKS {
      forall file: seq<byte>, k: nat, o: nat {:trigger FaithfulAt(file, k, o)} | |file| == n && k < MAXBLOCKS && o < 4096
        ensures FaithfulAt(file, k, o)
      {
        LaidFaithfully(file, k, o);
      }
    } else {
      SpoiledIsNot(n);
    }
  }

  // --------------------------------------------------- one round of write_file

  /** The slot that chunk c of a file is stored through. */
  function ChunkSlot(ino: nat, c: nat): Slot { SlotAt(ino, Min(c, MAXBLOCKS - 1)) }

  /** Chunk c of a file can be stored: its blocks exist or can be allocated. */
  ghost predicate Room(f: Fs, ino: nat, c: nat)
    requires Own(f) && ino < |f.inodes|
  {
    && (NeedsTable(f, ino, c) ==> f.avail != {})
    && (Ptr(WalkF(f, ino, c), ChunkSlot(ino, c)) == 0 ==>
          c < MAXBLOCKS && WalkF(f, ino, c).avail != {})
  }

  /** A failed round has added an indirect block at most. */
  ghost predicate TableOnly(f: Fs, g: Fs, ino: nat, c: nat)
    requires Own(f) && ino < |f.inodes|
  {
    g == f || (NeedsTable(f, ino, c) && f.avail != {} && g == WalkF(f, ino, c))
  }

  ghost function HoldF(f: Fs, s: Slot): Fs
    requires Own(f) && IsSlot(f, s) && (Ptr(f, s) == 0 ==> f.avail != {})
    requires s.Indirect? ==> Ptr(f, Direct(s.ino, 10)) != 0
  {
    if Ptr(f, s) == 0 then GrabF(f, s) else f
  }

  lemma HoldKeeps(f: Fs, s: Slot)
    requires Own(f) && IsSlot(f, s) && (Ptr(f, s) == 0 ==> f.avail != {})
    requires s.Indirect? ==> Ptr(f, Direct(s.ino, 10)) != 0
    ensures var g := HoldF(f, s);
      && Own(g) && SameContent(f, g) && PtrsBut(f, g, s) && Ptr(g, s) != 0 && g.avail <= f.avail
      && |g.avail| == |f.avail| - (if Ptr(f, s) == 0 then 1 else 0)
  {
    if Ptr(f, s) == 0 {
      GrabKeeps(f, s);
      assert OwnedAt(GrabF(f, s), s) && FreeAt(f, Lowest(f.avail));
    }
  }

  /** A pointer that is there stays, and the lowest free number fills the others. */
  lemma HoldFirst(f: Fs, s: Slot)
    requires Own(f) && IsSlot(f, s) && (s.Indirect? ==> Ptr(f, Direct(s.ino, 10)) != 0)
    ensures Ptr(f, s) == 0 && f.avail != {} ==>
      Ptr(GrabF(f, s), s) == Lowest(f.avail) >= RESERVED && HoldF(f, s) == GrabF(f, s)
    ensures Ptr(f, s) != 0 ==> HoldF(f, s) == f
  {
    if Ptr(f, s) == 0 && f.avail != {} { GrabKeeps(f, s); }
  }

  /** The block of chunk c is there, allocated if need be. */
  ghost function FindF(f: Fs, ino: nat, c: nat): (h: Fs)
    requires Own(f) && ino < |f.inodes| && Room(f, ino, c)
    ensures Own(h) && |h.inodes| == |f.inodes| && Ptr(h, ChunkSlot(ino, c)) != 0
  {
    WalkKeeps(f, ino, c);
    HoldKeeps(WalkF(f, ino, c), ChunkSlot(ino, c));
    HoldF(WalkF(f, ino, c), ChunkSlot(ino, c))
  }

  ghost predicate Placeable(f: Fs, ino: nat, c: nat, at: nat, data: seq<byte>) {
    Own(f) && ino < |f.inodes| && at + |data| <= 4096 && Room(f, ino, c)
  }

  /** One round of write_file: find the block of chunk c, allocate it if it is
      not there, copy the data into it and advance the size. */
  ghost function PlaceF(f: Fs, ino: nat, c: nat, at: nat, data: seq<byte>): Fs
    requires Placeable(f, ino, c, at, data)
  {
    var h := FindF(f, ino, c);
    WriteKeeps(h, ino, Min(c, MAXBLOCKS - 1), at, data);
    var w := WriteF(h, ino, Min(c, MAXBLOCKS - 1), at, data);
    Resized(w, ino, w.inodes[ino].size + |data|, w.inodes[ino].kind)
  }

  /** Other inodes are untouched, and ino's own size and kind. */
  ghost predicate InodesKept(f: Fs, g: Fs, ino: nat) {
    && |g.inodes| == |f.inodes|
    && (forall i :: 0 <= i < |f.inodes| && i != ino ==> g.inodes[i] == f.inodes[i])
    && (ino < |f.inodes| ==> g.inodes[ino].size == f.inodes[ino].size && g.inodes[ino].kind == f.inodes[ino].kind)
  }

  lemma FindInodes(f: Fs, ino: nat, c: nat)
    requires Own(f) && ino < |f.inodes| && Room(f, ino, c)
    ensures InodesKept(f, FindF(f, ino, c), ino)
  {
    hide Own, Ptr;
    WalkKeeps(f, ino, c);
  }

  /** All slots but the one of chunk c and the indirect block's. */
  ghost predicate PlacedPtrs(f: Fs, g: Fs, ino: nat, c: nat) {
    forall t {:trigger SamePtr(f, g, t)} ::
      IsSlot(f, t) && t != ChunkSlot(ino, c) && t != Direct(ino, 10) ==> SamePtr(f, g, t)
  }

  lemma FindKeeps(f: Fs, ino: nat, c: nat)
    requires Own(f) && ino < |f.inodes| && Room(f, ino, c)
    ensures var h := FindF(f, ino, c);
      && Own(h) && SameContent(f, h) && PlacedPtrs(f, h, ino, c) && Ptr(h, ChunkSlot(ino, c)) != 0
      && (Ptr(h, Direct(ino, 10)) != 0 <==> Ptr(f, Direct(ino, 10)) != 0 || 10 <= c < MAXBLOCKS)
      && h.avail <= f.avail
      && |h.avail| == |f.avail| - (if NeedsTable(f, ino, c) then 1 else 0)
                                - (if Ptr(f, ChunkSlot(ino, c)) == 0 then 1 else 0)
  {
    var g, h, s, d := WalkF(f, ino, c), FindF(f, ino, c), ChunkSlot(ino, c), Direct(ino, 10);
    WalkKeeps(f, ino, c);
    HoldKeeps(g, s);
    assert SamePtr(f, g, s) && SamePtr(g, h, d);
    hide Own, Ptr, GrabF, SameContent;
    SameTrans(f, g, h);
    forall t | IsSlot(f, t) && t != s && t != d ensures SamePtr(f, h, t) {
      assert SamePtr(f, g, t) && SamePtr(g, h, t);
    }
  }

  /** f, h, w, g: before, block found, data copied, size advanced. */
  ghost predicate Stages(f: Fs, h: Fs, w: Fs, g: Fs, ino: nat, c: nat, at: nat, data: seq<byte>) {
    && Placeable(f, ino, c, at, data) && h == FindF(f, ino, c)
    && w == WriteF(h, ino, Min(c, MAXBLOCKS - 1), at, data)
    && g == PlaceF(f, ino, c, at, data) && ino < |w.inodes|
    && g == Resized(w, ino, w.inodes[ino].size + |data|, w.inodes[ino].kind)
  }

  lemma PlacePtrs(f: Fs, h: Fs, w: Fs, g: Fs, ino: nat, c: nat, at: nat, data: seq<byte>)
    requires Stages(f, h, w, g, ino, c, at, data)
    ensures Own(g) && PlacedPtrs(f, g, ino, c) && Ptr(g, ChunkSlot(ino, c)) != 0
    ensures Ptr(g, Direct(ino, 10)) != 0 <==> Ptr(f, Direct(ino, 10)) != 0 || 10 <= c < MAXBLOCKS
  {
    var s := ChunkSlot(ino, c);
    FindKeeps(f, ino, c);
    WriteKeeps(h, ino, Min(c, MAXBLOCKS - 1), at, data);
    ResizedKeeps(w, ino, w.inodes[ino].size + |data|, w.inodes[ino].kind);
    hide Own, Ptr, FindF, WriteF, PlaceF, Patch, Placeable, ContentPut, SameContent;
    assert SamePtr(h, w, s) && SamePtr(w, g, s);
    assert SamePtr(h, w, Direct(ino, 10)) && SamePtr(w, g, Direct(ino, 10));
    forall t | IsSlot(f, t) && t != s && t != Direct(ino, 10) ensures SamePtr(f, g, t) {
      assert SamePtr(f, h, t) && SamePtr(h, w, t) && SamePtr(w, g, t);
    }
  }

  lemma PlaceViews(f: Fs, h: Fs, w: Fs, g: Fs, ino: nat, c: nat, at: nat, data: seq<byte>)
    requires Stages(f, h, w, g, ino, c, at, data)
    ensures var k := Min(c, MAXBLOCKS - 1); ContentPut(f, g, ino, k, Patch(View(f, ino, k), at, data))
  {
    var k := Min(c, MAXBLOCKS - 1);
    FindKeeps(f, ino, c);
    WriteKeeps(h, ino, k, at, data);
    ResizedKeeps(w, ino, w.inodes[ino].size + |data|, w.inodes[ino].kind);
    assert SameView(f, h, ino, k);
    hide Own, Ptr, FindF, WriteF, PlaceF, View, Patch, Placeable, SamePtrs, PlacedPtrs, SameContent, ContentPut;
    PutBetween(f, h, w, g, ino, k, Patch(View(f, ino, k), at, data));
  }

  lemma PlaceKeeps(f: Fs, ino: nat, c: nat, at: nat, data: seq<byte>)
    requires Placeable(f, ino, c, at, data)
    ensures var k, g := Min(c, MAXBLOCKS - 1), PlaceF(f, ino, c, at, data);
      && Own(g) && PlacedPtrs(f, g, ino, c) && Ptr(g, ChunkSlot(ino, c)) != 0
      && ContentPut(f, g, ino, k, Patch(View(f, ino, k), at, data))
      && (Ptr(g, Direct(ino, 10)) != 0 <==> Ptr(f, Direct(ino, 10)) != 0 || 10 <= c < MAXBLOCKS)
      && g.avail == FindF(f, ino, c).avail
      && InodesKept(f, Resized(g, ino, f.inodes[ino].size, g.inodes[ino].kind), ino)
      && g.inodes[ino].size == f.inodes[ino].size + |data| && g.inodes[ino].kind == f.inodes[ino].kind
  {
    hide Own, Ptr, FindF, View, Patch, SamePtrs, PlacedPtrs, ContentPut;
    var h, g := FindF(f, ino, c), PlaceF(f, ino, c, at, data);
    FindInodes(f, ino, c);
    var w := WriteF(h, ino, Min(c, MAXBLOCKS - 1), at, data);
    PlacePtrs(f, h, w, g, ino, c, at, data);
    PlaceViews(f, h, w, g, ino, c, at, data);
  }

  // ------------------------------------------------- a file filled chunk by chunk

  ghost predicate FilledAt(f0: Fs, f: Fs, ino: nat, file: seq<byte>, c: nat, i: nat, n: nat) {
    c <= Chunks(|file|) && View(f, i, n) == if i == ino then Laid(file, c, n) else View(f0, i, n)
  }

  /** f is f0 after the first c chunks of the file were stored in the new inode. */
  ghost predicate Filled(f0: Fs, f: Fs, ino: nat, file: seq<byte>, c: nat) {
    && c <= Chunks(|file|) && Own(f) && |f.inodes| == |f0.inodes| && ino < |f.inodes|
    && f.avail <= f0.avail && |f.avail| == |f0.avail| - Used(c)
    && f.inodes[ino].size == Min(4096 * c, |file|) && f.inodes[ino].kind == f0.inodes[ino].kind
    && (forall i :: 0 <= i < |f.inodes| && i != ino ==> f.inodes[i] == f0.inodes[i])
    && (Ptr(f, Direct(ino, 10)) != 0 <==> c > 10)
    && Held(f, ino, c)
    && (forall t {:trigger SamePtr(f0, f, t)} :: IsSlot(f0, t) && t.ino != ino ==> SamePtr(f0, f, t))
    && (forall i: nat, n: nat {:trigger FilledAt(f0, f, ino, file, c, i, n)} :: i < |f.inodes| && n < MAXBLOCKS ==>
          FilledAt(f0, f, ino, file, c, i, n))
  }

  /** No pointer of the inode is set. */
  ghost predicate Blank(f: Fs, ino: nat) {
    forall j: nat {:trigger Direct(ino, j)} :: j < 11 ==> Ptr(f, Direct(ino, j)) == 0
  }

  lemma FilledStart(f: Fs, ino: nat, file: seq<byte>)
    requires Own(f) && ino < |f.inodes| && Blank(f, ino) && f.inodes[ino].size == 0
    ensures Filled(f, f, ino, file, 0)
  {
    assert InodeAt(f, ino) && Ptr(f, Direct(ino, 10)) == 0;
    forall k: nat | k < MAXBLOCKS ensures HeldAt(f, ino, 0, k) {
      if k < 10 { assert Ptr(f, Direct(ino, k)) == 0; }
    }
    forall i: nat, n: nat | i < |f.inodes| && n < MAXBLOCKS ensures FilledAt(f, f, ino, file, 0, i, n) {
      assert HeldAt(f, ino, 0, n);
    }
  }

  /** The next chunk fits exactly if as many blocks are free as it takes. */
  lemma FilledRoom(f0: Fs, f: Fs, ino: nat, file: seq<byte>, c: nat)
    requires Filled(f0, f, ino, file, c) && c < Chunks(|file|)
    ensures Room(f, ino, c) <==> |f0.avail| >= Used(c + 1)
    ensures NeedsTable(f, ino, c) <==> c == 10
    ensures Ptr(f, ChunkSlot(ino, c)) == 0 <==> c < MAXBLOCKS
  {
    var k := Min(c, MAXBLOCKS - 1);
    assert HeldAt(f, ino, c, k);
    if NeedsTable(f, ino, c) && f.avail != {} {
      WalkKeeps(f, ino, c);
      assert SamePtr(f, WalkF(f, ino, c), SlotAt(ino, k));
      hide Own, Ptr, WalkF;
      assert |WalkF(f, ino, c).avail| == |f.avail| - 1;
      assert WalkF(f, ino, c).avail != {} <==> |WalkF(f, ino, c).avail| > 0;
    }
    assert f.avail != {} <==> |f.avail| > 0;
  }

  lemma FilledViews(f0: Fs, f: Fs, ino: nat, file: seq<byte>, c: nat, g: Fs, c1: nat)
    requires Filled(f0, f, ino, file, c) && c1 == c + 1 && c1 <= Chunks(|file|)
    requires var k := Min(c, MAXBLOCKS - 1); ContentPut(f, g, ino, k, Patch(View(f, ino, k), 0, ChunkAt(file, c)))
    ensures forall i: nat, n: nat {:trigger FilledAt(f0, g, ino, file, c1, i, n)} ::
      i < |f.inodes| && n < MAXBLOCKS ==> FilledAt(f0, g, ino, file, c1, i, n)
  {
    hide Own, Ptr, View, ChunkAt, Patch, IsSlot;
    var k := Min(c, MAXBLOCKS - 1);
    var blk := Patch(View(f, ino, k), 0, ChunkAt(file, c));
    assert FilledAt(f0, f, ino, file, c, ino, k);
    forall i: nat, n: nat | i < |f.inodes| && n < MAXBLOCKS ensures FilledAt(f0, g, ino, file, c1, i, n) {
      assert FilledAt(f0, f, ino, file, c, i, n) && ViewPut(f, g, ino, k, blk, i, n);
    }
  }

  lemma FilledPtrs(f0: Fs, f: Fs, ino: nat, file: seq<byte>, c: nat, g: Fs, c1: nat)
    requires Filled(f0, f, ino, file, c) && c1 == c + 1
    requires PlacedPtrs(f, g, ino, c) && Ptr(g, ChunkSlot(ino, c)) != 0
    ensures Held(g, ino, c1)
    ensures forall t {:trigger SamePtr(f0, g, t)} :: IsSlot(f0, t) && t.ino != ino ==> SamePtr(f0, g, t)
  {
    hide Own, Ptr, View, Laid;
    var k := Min(c, MAXBLOCKS - 1);
    forall n: nat | n < MAXBLOCKS ensures HeldAt(g, ino, c1, n) {
      assert HeldAt(f, ino, c, n);
      if n != k { assert SamePtr(f, g, SlotAt(ino, n)); }
    }
    forall t | IsSlot(f0, t) && t.ino != ino ensures SamePtr(f0, g, t) {
      assert SamePtr(f0, f, t) && SamePtr(f, g, t);
    }
  }

  /** Storing the next chunk fills the file further and touches no other file. */
  lemma FilledStep(f0: Fs, f: Fs, ino: nat, file: seq<byte>, c: nat)
    requires Filled(f0, f, ino, file, c) && c < Chunks(|file|) && Room(f, ino, c)
    ensures Filled(f0, PlaceF(f, ino, c, 0, ChunkAt(file, c)), ino, file, c + 1)
  {
    var g := PlaceF(f, ino, c, 0, ChunkAt(file, c));
    PlaceKeeps(f, ino, c, 0, ChunkAt(file, c));
    FindKeeps(f, ino, c);
    FilledRoom(f0, f, ino, file, c);
    FilledViews(f0, f, ino, file, c, g, c + 1);
    FilledPtrs(f0, f, ino, file, c, g, c + 1);
    hide Own, Ptr, FindF, PlaceF, View, Room, NeedsTable, Patch, FilledAt, HeldAt, ContentPut;
  }

  /** The file's content is its first c chunks, and nothing else reads otherwise. */
  ghost predicate Stored(f0: Fs, f: Fs, ino: nat, file: seq<byte>, c: nat) {
    && c <= Chunks(|file|) && Own(f) && |f.inodes| == |f0.inodes| && ino < |f.inodes|
    && f.avail <= f0.avail && f.inodes[ino].size == Min(4096 * c, |file|) && f.inodes[ino].kind == f0.inodes[ino].kind
    && (forall i :: 0 <= i < |f.inodes| && i != ino ==> f.inodes[i] == f0.inodes[i])
    && (forall t {:trigger SamePtr(f0, f, t)} :: IsSlot(f0, t) && t.ino != ino ==> SamePtr(f0, f, t))
    && (forall i: nat, n: nat {:trigger FilledAt(f0, f, ino, file, c, i, n)} :: i < |f.inodes| && n < MAXBLOCKS ==>
          FilledAt(f0, f, ino, file, c, i, n))
  }

  lemma FilledIsStored(f0: Fs, f: Fs, ino: nat, file: seq<byte>, c: nat)
    requires Filled(f0, f, ino, file, c)
    ensures Stored(f0, f, ino, file, c)
  {
    hide Own, Ptr, FilledAt;
  }

  /** Allocating the indirect block alone leaves all content as it is. */
  lemma WalkIsStored(f0: Fs, f: Fs, ino: nat, file: seq<byte>, c: nat, k: nat)
    requires Filled(f0, f, ino, file, c) && NeedsTable(f, ino, k) && f.avail != {}
    ensures Stored(f0, WalkF(f, ino, k), ino, file, c)
  {
    var g := WalkF(f, ino, k);
    WalkKeeps(f, ino, k);
    assert forall i :: 0 <= i < |f.inodes| && i != ino ==> g.inodes[i] == f.inodes[i];
    assert g.inodes[ino].size == f.inodes[ino].size && g.inodes[ino].kind == f.inodes[ino].kind;
    hide Own, Ptr, WalkF, View;
    forall t | IsSlot(f0, t) && t.ino != ino ensures SamePtr(f0, g, t) {
      assert SamePtr(f0, f, t) && SamePtr(f, g, t);
    }
    forall i: nat, n: nat | i < |f.inodes| && n < MAXBLOCKS ensures FilledAt(f0, g, ino, file, c, i, n) {
      assert FilledAt(f0, f, ino, file, c, i, n) && SameView(f, g, i, n);
    }
  }

  lemma StoredSize(f0: Fs, f: Fs, ino: nat, file: seq<byte>, c: nat)
    requires Stored(f0, f, ino, file, c) && c < Chunks(|file|)
    ensures ino < |f.inodes| && f.inodes[ino].size / 4096 == c
  {
    hide Own, Ptr, FilledAt;
  }

  /** What write_file needs to know before each round, and at the end. */
  lemma FilledParts(f0: Fs, f: Fs, ino: nat, file: seq<byte>, c: nat)
    requires Filled(f0, f, ino, file, c)
    ensures ino < |f.inodes| && |f0.avail| >= Used(c) && f.inodes[ino].size == Min(4096 * c, |file|)
    ensures c < Chunks(|file|) ==>
      && f.inodes[ino].size == 4096 * c
      && (Room(f, ino, c) <==> |f0.avail| >= Used(c + 1))
      && (c >= MAXBLOCKS ==> Ptr(f, ChunkSlot(ino, c)) != 0)
  {
    hide Own, Ptr, FilledAt, Room;
    if c < Chunks(|file|) { FilledRoom(f0, f, ino, file, c); }
  }

  // ------------------------------------------------------------ the directory

  ghost predicate DirRoom(f: Fs) {
    Own(f) && DirOk(f) && f.inodes[0].size / 4096 < MAXBLOCKS && Room(f, 0, f.inodes[0].size / 4096)
  }

  /** The directory grows by one vacant block. */
  ghost function NewDirF(f: Fs): Fs
    requires DirRoom(f)
  {
    var h := FindF(f, 0, f.inodes[0].size / 4096);
    Resized(h, 0, f.inodes[0].size + 4096, h.inodes[0].kind)
  }

  lemma NewDirPtrs(f: Fs, h: Fs, g: Fs, c: nat)
    requires DirRoom(f) && c == f.inodes[0].size / 4096 && h == FindF(f, 0, c) && g == NewDirF(f)
    ensures Own(g) && g.inodes[0].size == f.inodes[0].size + 4096
    ensures Held(g, 0, c + 1)
    ensures forall t {:trigger SamePtr(f, g, t)} :: IsSlot(f, t) && t.ino != 0 ==> SamePtr(f, g, t)
  {
    hide Own, Ptr, FindF, View, Room, SameContent;
    FindKeeps(f, 0, c);
    ResizedKeeps(h, 0, f.inodes[0].size + 4096, h.inodes[0].kind);
    var c1 := c + 1;
    forall k: nat | k < MAXBLOCKS ensures HeldAt(g, 0, c1, k) {
      assert HeldAt(f, 0, c, k) && SamePtr(h, g, SlotAt(0, k));
      if k != c { assert SamePtr(f, h, SlotAt(0, k)); }
    }
    forall t | IsSlot(f, t) && t.ino != 0 ensures SamePtr(f, g, t) {
      assert SamePtr(f, h, t) && SamePtr(h, g, t);
    }
  }

  /** Nothing but the directory's own allocation differs: every file reads the same. */
  ghost predicate Quiet(f: Fs, g: Fs) {
    && Own(g) && DirOk(g) && SameContent(f, g) && g.avail <= f.avail
    && (forall t {:trigger SamePtr(f, g, t)} :: IsSlot(f, t) && t.ino != 0 ==> SamePtr(f, g, t))
    && (forall i :: 0 < i < |f.inodes| ==> g.inodes[i] == f.inodes[i])
  }

  lemma NewDirKeeps(f: Fs)
    requires DirRoom(f)
    ensures Quiet(f, NewDirF(f)) && NewDirF(f).inodes[0].size == f.inodes[0].size + 4096
  {
    hide Own, Ptr, FindF, View, Room, Held, SamePtr, SameContent;
    var c := f.inodes[0].size / 4096;
    var h, g := FindF(f, 0, c), NewDirF(f);
    FindKeeps(f, 0, c);
    FindInodes(f, 0, c);
    NewDirPtrs(f, h, g, c);
    ResizedKeeps(h, 0, f.inodes[0].size + 4096, h.inodes[0].kind);
    assert |h.inodes| == |f.inodes|;
    SameTrans(f, h, g);
  }

  lemma SameQuiet(f: Fs)
    requires Own(f) && DirOk(f)
    ensures Quiet(f, f)
  {
    hide Own, Ptr, View, Held;
  }

  lemma WalkQuiet(f: Fs, c: nat)
    requires Own(f) && DirOk(f) && f.avail != {}
    ensures Quiet(f, WalkF(f, 0, c))
  {
    var g := WalkF(f, 0, c);
    WalkKeeps(f, 0, c);
    assert g.inodes[0].size == f.inodes[0].size && |g.inodes| == |f.inodes|;
    assert forall i :: 0 < i < |f.inodes| ==> g.inodes[i] == f.inodes[i];
    var n := f.inodes[0].size / 4096;
    hide Own, Ptr, View, WalkF;
    forall k: nat | k < MAXBLOCKS ensures HeldAt(g, 0, n, k) {
      assert HeldAt(f, 0, n, k) && SamePtr(f, g, SlotAt(0, k));
    }
  }

  /** Before a directory block is added its slot is empty. */
  lemma DirEnd(f: Fs)
    requires Own(f) && DirOk(f) && f.inodes[0].size / 4096 < MAXBLOCKS
    ensures var c := f.inodes[0].size / 4096;
      && Ptr(f, SlotAt(0, c)) == 0
      && (NeedsTable(f, 0, c) ==> f.avail != {} ==> Ptr(WalkF(f, 0, c), SlotAt(0, c)) == 0)
  {
    var c := f.inodes[0].size / 4096;
    assert HeldAt(f, 0, c, c);
    if NeedsTable(f, 0, c) && f.avail != {} {
      WalkKeeps(f, 0, c);
      assert SamePtr(f, WalkF(f, 0, c), SlotAt(0, c));
    }
  }

  // --------------------------------------------------------- creating a file

  /** Every inode that is free in the inode bitmap has no blocks. */
  ghost predicate SpareAt(f: Fs, free: set<nat>, i: nat) {
    i in free && i < |f.inodes| ==> i != 0 && Blank(f, i)
  }

  ghost predicate Spare(f: Fs, free: set<nat>) {
    forall i {:trigger SpareAt(f, free, i)} :: SpareAt(f, free, i)
  }

  ghost predicate CreatedAt(f0: Fs, f: Fs, name: seq<byte>, file: seq<byte>, ino: nat, k: nat, e: nat, c: nat,
        i: nat, n: nat)
    requires e < ENTRIES && ino < 0x1_0000 && IsName(name)
  {
    c <= Chunks(|file|) && View(f, i, n) ==
      if i == ino then Laid(file, c, n)
      else if i == 0 && n == k then WithEntry(View(f0, 0, k), e, ino, name)
      else View(f0, i, n)
  }

  /** f is f0 with the new entry (name, ino) at place (k, e) of the directory and
      the first c chunks of the file as the content of ino; all else is as it was. */
  ghost predicate Created(f0: Fs, f: Fs, name: seq<byte>, file: seq<byte>, ino: nat, k: nat, e: nat, c: nat) {
    && e < ENTRIES && 0 < ino < |f.inodes| && ino < 0x1_0000 && IsName(name) && c <= Chunks(|file|)
    && |f.inodes| == |f0.inodes| && f.inodes[ino].size == Min(4096 * c, |file|)
    && forall i: nat, n: nat {:trigger CreatedAt(f0, f, name, file, ino, k, e, c, i, n)} ::
         i < |f.inodes| && n < MAXBLOCKS ==> CreatedAt(f0, f, name, file, ino, k, e, c, i, n)
  }

  /** The name is in the first directory block, the only one that is searched. */
  ghost predicate NameTaken(f: Fs, name: seq<byte>)
    requires 0 < |f.inodes|
  {
    0 < f.inodes[0].size && !FirstNamed(View(f, 0, 0), name, -1)
  }

  /** No entry is vacant in the first directory block. */
  ghost predicate Full(f: Fs)
    requires 0 < |f.inodes|
  {
    f.inodes[0].size == 0 || FirstVacant(View(f, 0, 0), -1)
  }

  /** The stages of create_file_image: before, entry allocated, inode reset, entry
      filled, file written. */
  lemma CreatedIs(f0: Fs, f1: Fs, f2: Fs, f3: Fs, f4: Fs, name: seq<byte>, file: seq<byte>, ino: nat, k: nat, e: nat,
        c: nat)
    requires e < ENTRIES && 0 < ino < |f0.inodes| && ino < 0x1_0000 && IsName(name) && k < MAXBLOCKS
    requires SameContent(f0, f1) && SameContent(f1, f2)
    requires ContentPut(f2, f3, 0, k, WithEntry(View(f2, 0, k), e, ino, name))
    requires Stored(f3, f4, ino, file, c)
    ensures Created(f0, f4, name, file, ino, k, e, c)
  {
    hide Own, Ptr, View, WithEntry, Laid, Chunks;
    var blk := WithEntry(View(f2, 0, k), e, ino, name);
    assert SameView(f0, f1, 0, k) && SameView(f1, f2, 0, k);
    forall i: nat, n: nat | i < |f4.inodes| && n < MAXBLOCKS
      ensures CreatedAt(f0, f4, name, file, ino, k, e, c, i, n)
    {
      assert SameView(f0, f1, i, n) && SameView(f1, f2, i, n) && ViewPut(f2, f3, 0, k, blk, i, n);
      assert FilledAt(f3, f4, ino, file, c, i, n);
    }
  }

  lemma StoredPtrs(f: Fs, g: Fs, ino: nat, file: seq<byte>, c: nat)
    requires Stored(f, g, ino, file, c)
    ensures |g.inodes| == |f.inodes| && Own(g)
    ensures forall t {:trigger SamePtr(f, g, t)} :: IsSlot(f, t) && t.ino != ino ==> SamePtr(f, g, t)
    ensures forall i :: 0 <= i < |f.inodes| && i != ino ==> g.inodes[i] == f.inodes[i]
    ensures ino < |g.inodes| && g.inodes[ino].size == Min(4096 * c, |file|)
    ensures g.inodes[ino].kind == f.inodes[ino].kind
  {
  }

  /** The inodes that stay free stay blank. */
  lemma SpareKept(f0: Fs, f1: Fs, f2: Fs, f3: Fs, f4: Fs, free: set<nat>, ino: nat, file: seq<byte>, c: nat)
    requires Spare(f0, free) && Quiet(f0, f1) && SamePtrs(f1, f2) && SamePtrs(f2, f3)
    requires Stored(f3, f4, ino, file, c)
    requires |f0.inodes| == |f1.inodes| == |f2.inodes| == |f3.inodes|
    ensures Spare(f4, free - {ino})
  {
    hide Own, Ptr, View, Stored;
    StoredPtrs(f3, f4, ino, file, c);
    forall i: nat ensures SpareAt(f4, free - {ino}, i) {
      assert SpareAt(f0, free, i);
      if i in free - {ino} && i < |f4.inodes| {
        forall j: nat {:trigger Direct(i, j)} | j < 11 ensures Ptr(f4, Direct(i, j)) == 0 {
          var t := Direct(i, j);
          assert SamePtr(f0, f1, t) && SamePtr(f1, f2, t) && SamePtr(f2, f3, t) && SamePtr(f3, f4, t);
        }
      }
    }
  }

  /** The directory stays in order. */
  lemma DirKept(f1: Fs, f2: Fs, f3: Fs, f4: Fs, ino: nat, file: seq<byte>, c: nat)
    requires DirOk(f1) && SamePtrs(f1, f2) && SamePtrs(f2, f3) && ino != 0
    requires Stored(f3, f4, ino, file, c)
    requires |f1.inodes| == |f2.inodes| == |f3.inodes|
    requires f3.inodes[0] == f2.inodes[0] == f1.inodes[0]
    ensures DirOk(f4)
  {
    hide Own, Ptr, View, Stored;
    StoredPtrs(f3, f4, ino, file, c);
    var n := f1.inodes[0].size / 4096;
    forall k: nat | k < MAXBLOCKS ensures HeldAt(f4, 0, n, k) {
      var t := SlotAt(0, k);
      assert HeldAt(f1, 0, n, k) && SamePtr(f1, f2, t) && SamePtr(f2, f3, t) && SamePtr(f3, f4, t);
    }
  }

  /** A blank inode stays blank until it is written. */
  lemma BlankStays(f1: Fs, f2: Fs, f3: Fs, ino: nat)
    requires Blank(f1, ino) && ino < |f1.inodes| == |f2.inodes| && SamePtrs(f1, f2) && SamePtrs(f2, f3)
    ensures Blank(f3, ino)
  {
    hide Own, Ptr, View;
    forall j: nat {:trigger Direct(ino, j)} | j < 11 ensures Ptr(f3, Direct(ino, j)) == 0 {
      assert SamePtr(f1, f2, Direct(ino, j)) && SamePtr(f2, f3, Direct(ino, j));
    }
  }

  lemma ResizedDir(f: Fs, ino: nat)
    requires Own(f) && DirOk(f) && 0 < ino < |f.inodes|
    ensures DirOk(Resized(f, ino, 0, 0)) && Resized(f, ino, 0, 0).inodes[0] == f.inodes[0]
  {
    hide Own, Ptr;
    var g, n := Resized(f, ino, 0, 0), f.inodes[0].size / 4096;
    ResizedKeeps(f, ino, 0, 0);
    forall k: nat | k < MAXBLOCKS ensures HeldAt(g, 0, n, k) {
      assert HeldAt(f, 0, n, k) && SamePtr(f, g, SlotAt(0, k));
    }
  }

  /** write_file stored c chunks because they are all, or because the next did not fit; then
      no block is left. */
  ghost predicate Stops(f: Fs, g: Fs, file: seq<byte>, c: nat) {
    && Used(c) <= |f.avail|
    && if c < Chunks(|file|) then |f.avail| < Used(c + 1) && g.avail == {} else |g.avail| == |f.avail| - Used(c)
  }

  /** The file's first c blocks are allocated, and its indirect block if it needs one. */
  ghost predicate Complete(f: Fs, ino: nat, c: nat) {
    Held(f, ino, c) && (Ptr(f, Direct(ino, 10)) != 0 <==> c > 10)
  }

  lemma FilledComplete(f0: Fs, f: Fs, ino: nat, file: seq<byte>, c: nat)
    requires Filled(f0, f, ino, file, c)
    ensures Complete(f, ino, c)
  {
    hide Own, Ptr, Held;
  }

  /** What create_file_image leaves behind. */
  lemma EnterKeeps(f0: Fs, f1: Fs, f2: Fs, f3: Fs, f4: Fs, name: seq<byte>, file: seq<byte>, free: set<nat>,
                   ino: nat, k: nat, e: nat, c: nat)
    requires e < ENTRIES && 0 < ino < |f0.inodes| && ino < 0x1_0000 && IsName(name) && k < MAXBLOCKS
    requires Quiet(f0, f1) && |f0.inodes| == |f1.inodes| && Own(f1) && DirOk(f1) && Spare(f1, free)
    requires f2 == Resized(f1, ino, 0, 0) && SamePtrs(f2, f3) && f3.inodes == f2.inodes
    requires ContentPut(f2, f3, 0, k, WithEntry(View(f2, 0, k), e, ino, name))
    requires Stored(f3, f4, ino, file, c)
    ensures Created(f0, f4, name, file, ino, k, e, c) && DirOk(f4) && Spare(f4, free - {ino}) && Own(f4)
    ensures f4.inodes[0] == f1.inodes[0] && OthersKept(f0, f4, ino)
  {
    ResizedKeeps(f1, ino, 0, 0);
    SameQuiet(f1);
    assert SameContent(f0, f1);
    hide Own, Ptr, View, Held, Blank, Spare, Quiet, Created, Stored, FilledAt, HeldAt, DirOk, ContentPut,
          SameContent, SamePtrs, WithEntry;
    CreatedIs(f0, f1, f2, f3, f4, name, file, ino, k, e, c);
    SpareKept(f1, f1, f2, f3, f4, free, ino, file, c);
    DirKept(f1, f2, f3, f4, ino, file, c);
    StoredPtrs(f3, f4, ino, file, c);
    QuietInodes(f0, f1);
  }

  /** A new file has kind 0, and every inode but its own and the directory's is as it was. */
  ghost predicate OthersKept(f: Fs, g: Fs, ino: nat) {
    && ino < |g.inodes| == |f.inodes| && g.inodes[ino].kind == 0
    && forall i :: 0 < i < |f.inodes| && i != ino ==> g.inodes[i] == f.inodes[i]
  }

  lemma QuietInodes(f: Fs, g: Fs)
    requires Quiet(f, g)
    ensures forall i :: 0 < i < |f.inodes| ==> i < |g.inodes| && g.inodes[i] == f.inodes[i]
  {
    hide Own, DirOk;
    assert |g.inodes| == |f.inodes|;
  }

  lemma QuietParts(f: Fs, g: Fs, free: set<nat>)
    requires Quiet(f, g) && Spare(f, free) && |f.inodes| == |g.inodes|
    ensures Own(g) && DirOk(g) && SameContent(f, g) && Spare(g, free)
  {
    hide Own, Ptr, View;
    forall i: nat ensures SpareAt(g, free, i) {
      assert SpareAt(f, free, i);
      if i in free && i < |g.inodes| {
        forall j: nat {:trigger Direct(i, j)} | j < 11 ensures Ptr(g, Direct(i, j)) == 0 {
          assert SamePtr(f, g, Direct(i, j));
        }
      }
    }
  }

  /** Looking a name up in the directory gives inode ino. */
  ghost predicate Finds(f: Fs, name: seq<byte>, ino: nat)
    requires 0 < |f.inodes|
  {
    0 < f.inodes[0].size && exists e: nat {:trigger FirstNamed(View(f, 0, 0), name, e)} ::
      e < ENTRIES && FirstNamed(View(f, 0, 0), name, e) && EntryIno(View(f, 0, 0), e) == ino
  }

  /** The new entry can be looked up if it is in the first directory block, the only
      one that is searched. */
  lemma EntryFinds(f0: Fs, f: Fs, name: seq<byte>, file: seq<byte>, ino: nat, k: nat, e: nat, c: nat)
    requires 0 < |f0.inodes| && Created(f0, f, name, file, ino, k, e, c) && k < MAXBLOCKS
    requires FirstNamed(View(f0, 0, 0), name, -1) && 0 < f.inodes[0].size
    ensures Finds(f, name, ino) <==> k == 0
  {
    hide View, Laid;
    assert CreatedAt(f0, f, name, file, ino, k, e, c, 0, 0);
    if k == 0 { EntryFound(View(f0, 0, 0), e, ino, name); }
  }

  /** A zero block has no entries. */
  lemma NoNames(name: seq<byte>)
    requires IsName(name)
    ensures FirstNamed(ZeroBlock(), name, -1)
  {
    forall x: nat | x < ENTRIES ensures !Named(ZeroBlock(), x, name) {
      var field := EntryName(ZeroBlock(), x);
      assert field[0] == 0 && name[0] != 0 && field[..|name|][0] == field[0];
    }
  }

  /** The first block of a directory without blocks reads as zeros. */
  lemma NoBlocks(f: Fs)
    requires DirOk(f) && f.inodes[0].size == 0
    ensures View(f, 0, 0) == ZeroBlock()
  {
    assert HeldAt(f, 0, 0, 0);
  }

  /** A created file can be looked up if and only if the directory was empty before or
      an entry of its first block was vacant: later blocks are never searched. */
  lemma CreatedFinds(f0: Fs, f: Fs, name: seq<byte>, file: seq<byte>, ino: nat, k: nat, e: nat, c: nat)
    requires DirOk(f0) && Created(f0, f, name, file, ino, k, e, c) && k < MAXBLOCKS
    requires !NameTaken(f0, name) && 0 < f.inodes[0].size
    requires k == if Full(f0) then f0.inodes[0].size / 4096 else 0
    ensures Finds(f, name, ino) <==> f0.inodes[0].size == 0 || !Full(f0)
  {
    hide View, Laid, Held, FirstVacant;
    if f0.inodes[0].size == 0 {
      NoBlocks(f0);
      NoNames(name);
    }
    EntryFinds(f0, f, name, file, ino, k, e, c);
  }
}
