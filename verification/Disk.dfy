/** The xxx file system as a value, shared by the image builder and the kernel.

  A pointer slot is one of the eleven block numbers of an inode (the eleventh
  names the indirect block) or one of the 2048 16-bit words of an indirect
  block.  `Own` says that every block has one owner; `View` is the content of
  block k of a file, zeros where nothing is allocated.
*/
module Disk {
  import opened Bitmap

  newtype byte = x: int | 0 <= x < 256

  type Block = b: seq<byte> | |b| == 4096 witness seq(4096, i => 0)

  /** Ten direct blocks and one indirect block of 2048 pointers. */
  const MAXBLOCKS: nat := 2058
  /** Super block, two bitmaps and ten blocks of inodes come first. */
  const RESERVED: nat := 14
  const NBLOCKS: nat := 0x8000

  function ZeroBlock(): (z: Block)
    ensures forall i :: 0 <= i < 4096 ==> z[i] == 0
  {
    seq(4096, i => 0)
  }

  function Min(a: nat, b: nat): nat { if a < b then a else b }

  /** Little-endian unsigned short number l of a block. */
  function Le16(b: Block, l: nat): nat
    requires l < 2048
  {
    b[2 * l] as nat + 256 * (b[2 * l + 1] as nat)
  }

  function PutLe16(b: Block, l: nat, v: nat): Block
    requires l < 2048 && v < 0x1_0000
  {
    b[2 * l := (v % 256) as byte][2 * l + 1 := (v / 256) as byte]
  }

  lemma PutLe16At(b: Block, l: nat, v: nat, k: nat)
    requires l < 2048 && v < 0x1_0000 && k < 2048
    ensures Le16(PutLe16(b, l, v), k) == if k == l then v else Le16(b, k)
  {
  }

  /** memcpy into the middle of a block. */
  function Patch(b: Block, at: nat, data: seq<byte>): Block
    requires at + |data| <= 4096
  {
    b[..at] + data + b[at + |data|..]
  }

  datatype Inode = Inode(size: nat, kind: nat, ptr: seq<nat>)

  datatype Slot = Direct(ino: nat, j: nat) | Indirect(ino: nat, l: nat)

  datatype Fs = Fs(blocks: seq<Block>, avail: set<nat>, inodes: seq<Inode>)

  /** The slot of block k of a file. */
  function SlotAt(ino: nat, k: nat): Slot {
    if k < 10 then Direct(ino, k) else Indirect(ino, k - 10)
  }

  predicate IsSlot(fs: Fs, s: Slot) {
    s.ino < |fs.inodes| && match s case Direct(_, j) => j < 11 case Indirect(_, l) => l < 2048
  }

  ghost predicate InodeAt(fs: Fs, i: nat) {
    i < |fs.inodes| ==> |fs.inodes[i].ptr| == 11
  }

  ghost predicate Shaped(fs: Fs) {
    |fs.blocks| >= NBLOCKS && forall i {:trigger InodeAt(fs, i)} :: InodeAt(fs, i)
  }

  /** The block number in a slot, 0 is null. */
  function Ptr(fs: Fs, s: Slot): nat {
    if s.ino >= |fs.inodes| || |fs.inodes[s.ino].ptr| != 11 then 0 else
    match s
    case Direct(ino, j) => if j < 11 then fs.inodes[ino].ptr[j] else 0
    case Indirect(ino, l) =>
      var t := fs.inodes[ino].ptr[10];
      if 0 < t < |fs.blocks| && l < 2048 then Le16(fs.blocks[t], l) else 0
  }

  ghost predicate OwnedAt(fs: Fs, s: Slot) {
    IsSlot(fs, s) && Ptr(fs, s) != 0 ==> RESERVED <= Ptr(fs, s) < NBLOCKS && Ptr(fs, s) !in fs.avail
  }

  ghost predicate ApartAt(fs: Fs, s: Slot, t: Slot) {
    IsSlot(fs, s) && IsSlot(fs, t) && s != t && Ptr(fs, s) != 0 ==> Ptr(fs, s) != Ptr(fs, t)
  }

  ghost predicate FreeAt(fs: Fs, b: nat) {
    b in fs.avail ==> RESERVED <= b < NBLOCKS && b < |fs.blocks| && fs.blocks[b] == ZeroBlock()
  }

  /** Every block has one owner, and free blocks are zero. */
  ghost predicate Own(fs: Fs) {
    && Shaped(fs)
    && (forall s {:trigger OwnedAt(fs, s)} :: OwnedAt(fs, s))
    && (forall s, t {:trigger ApartAt(fs, s, t)} :: ApartAt(fs, s, t))
    && (forall b {:trigger FreeAt(fs, b)} :: FreeAt(fs, b))
  }

  /** Block k of file ino. */
  function View(fs: Fs, ino: nat, k: nat): Block {
    var p := Ptr(fs, SlotAt(ino, k));
    if 0 < p < |fs.blocks| then fs.blocks[p] else ZeroBlock()
  }

  ghost predicate SamePtr(f: Fs, g: Fs, s: Slot) { Ptr(g, s) == Ptr(f, s) }

  ghost predicate SameView(f: Fs, g: Fs, i: nat, n: nat) { View(g, i, n) == View(f, i, n) }

  /** No file's content differs. */
  ghost predicate SameContent(f: Fs, g: Fs) {
    |g.inodes| == |f.inodes| &&
    forall i: nat, n: nat {:trigger SameView(f, g, i, n)} :: i < |f.inodes| && n < MAXBLOCKS ==> SameView(f, g, i, n)
  }

  ghost predicate ViewPut(f: Fs, g: Fs, ino: nat, k: nat, blk: Block, i: nat, n: nat) {
    View(g, i, n) == if i == ino && n == k then blk else View(f, i, n)
  }

  /** Block k of file ino becomes blk, and no other block of any file differs. */
  ghost predicate ContentPut(f: Fs, g: Fs, ino: nat, k: nat, blk: Block) {
    |g.inodes| == |f.inodes| &&
    forall i: nat, n: nat {:trigger ViewPut(f, g, ino, k, blk, i, n)} :: i < |f.inodes| && n < MAXBLOCKS ==>
      ViewPut(f, g, ino, k, blk, i, n)
  }

  ghost predicate SamePtrs(f: Fs, g: Fs) {
    forall t {:trigger SamePtr(f, g, t)} :: IsSlot(f, t) ==> SamePtr(f, g, t)
  }

  ghost predicate PtrsBut(f: Fs, g: Fs, s: Slot) {
    forall t {:trigger SamePtr(f, g, t)} :: IsSlot(f, t) && t != s ==> SamePtr(f, g, t)
  }

  lemma SameTrans(f: Fs, g: Fs, h: Fs)
    requires SameContent(f, g) && SameContent(g, h)
    ensures SameContent(f, h)
  {
    hide View;
    forall i: nat, n: nat | i < |f.inodes| && n < MAXBLOCKS ensures SameView(f, h, i, n) {
      assert SameView(f, g, i, n) && SameView(g, h, i, n);
    }
  }

  /** Steps that keep all content may come before and after the one that does not. */
  lemma PutBetween(f: Fs, g: Fs, w: Fs, h: Fs, ino: nat, k: nat, blk: Block)
    requires SameContent(f, g) && ContentPut(g, w, ino, k, blk) && SameContent(w, h)
    ensures ContentPut(f, h, ino, k, blk)
  {
    hide View;
    forall i: nat, n: nat | i < |f.inodes| && n < MAXBLOCKS ensures ViewPut(f, h, ino, k, blk, i, n) {
      assert SameView(f, g, i, n) && ViewPut(g, w, ino, k, blk, i, n) && SameView(w, h, i, n);
    }
  }

  lemma SameSelf(f: Fs)
    ensures SameContent(f, f)
  {
  }

  // ------------------------------------------------------- allocating a slot

  /** Store block number b in the empty slot s and take b off the bitmap. */
  function AssignF(fs: Fs, s: Slot, b: nat): Fs
    requires Shaped(fs) && IsSlot(fs, s) && b < NBLOCKS
    requires s.Indirect? ==> 0 < Ptr(fs, Direct(s.ino, 10)) < NBLOCKS
  {
    assert InodeAt(fs, s.ino);
    var was := fs.inodes[s.ino];
    match s
    case Direct(ino, j) =>
      Fs(fs.blocks, fs.avail - {b}, fs.inodes[ino := was.(ptr := was.ptr[j := b])])
    case Indirect(ino, l) =>
      Fs(fs.blocks[was.ptr[10] := PutLe16(fs.blocks[was.ptr[10]], l, b)], fs.avail - {b}, fs.inodes)
  }

  ghost predicate Assignable(fs: Fs, s: Slot, b: nat) {
    && Own(fs) && IsSlot(fs, s) && Ptr(fs, s) == 0 && b in fs.avail && b < NBLOCKS
    && (s.Indirect? ==> 0 < Ptr(fs, Direct(s.ino, 10)) < NBLOCKS)
  }

  lemma ZeroPtr(b: Block, l: nat)
    requires l < 2048 && b == ZeroBlock()
    ensures Le16(b, l) == 0
  {
  }

  lemma AssignPtr(fs: Fs, s: Slot, b: nat, t: Slot)
    requires Assignable(fs, s, b) && IsSlot(fs, t)
    ensures IsSlot(AssignF(fs, s, b), t)
    ensures Ptr(AssignF(fs, s, b), t) == if t == s then b else Ptr(fs, t)
  {
    assert InodeAt(fs, s.ino) && InodeAt(fs, t.ino) && FreeAt(fs, b);
    match s {
      case Direct(i, j) =>
        if t.Indirect? && t.ino == i && j == 10 { ZeroPtr(fs.blocks[b], t.l); }
      case Indirect(i, l) =>
        if t.Indirect? {
          assert ApartAt(fs, Direct(i, 10), Direct(t.ino, 10));
          PutLe16At(fs.blocks[fs.inodes[i].ptr[10]], l, b, t.l);
        }
    }
  }

  lemma AssignShaped(fs: Fs, s: Slot, b: nat)
    requires Assignable(fs, s, b)
    ensures Shaped(AssignF(fs, s, b))
  {
    forall i ensures InodeAt(AssignF(fs, s, b), i) { assert InodeAt(fs, i) && InodeAt(fs, s.ino); }
  }

  lemma AssignFree(fs: Fs, s: Slot, b: nat, c: nat)
    requires Assignable(fs, s, b)
    ensures FreeAt(AssignF(fs, s, b), c)
  {
    assert FreeAt(fs, c) && InodeAt(fs, s.ino) && OwnedAt(fs, Direct(s.ino, 10));
  }

  /** The new pointer has one owner. */
  lemma AssignOwn(fs: Fs, s: Slot, b: nat)
    requires Assignable(fs, s, b)
    ensures Own(AssignF(fs, s, b))
  {
    var g := AssignF(fs, s, b);
    AssignShaped(fs, s, b);
    forall t ensures OwnedAt(g, t) {
      if IsSlot(g, t) { AssignPtr(fs, s, b, t); assert OwnedAt(fs, t) && FreeAt(fs, b); }
    }
    forall t, u ensures ApartAt(g, t, u) {
      if IsSlot(g, t) && IsSlot(g, u) {
        AssignPtr(fs, s, b, t);
        AssignPtr(fs, s, b, u);
        assert ApartAt(fs, t, u) && OwnedAt(fs, t) && OwnedAt(fs, u);
      }
    }
    forall c ensures FreeAt(g, c) { AssignFree(fs, s, b, c); }
  }

  /** Allocating changes no content: what is allocated was zero. */
  lemma AssignView(fs: Fs, s: Slot, b: nat, i: nat, n: nat)
    requires Assignable(fs, s, b) && i < |fs.inodes| && n < MAXBLOCKS
    ensures SameView(fs, AssignF(fs, s, b), i, n)
  {
    var u := SlotAt(i, n);
    AssignPtr(fs, s, b, u);
    assert FreeAt(fs, b) && InodeAt(fs, s.ino) && OwnedAt(fs, u);
    if s.Indirect? { assert ApartAt(fs, Direct(s.ino, 10), u) && OwnedAt(fs, Direct(s.ino, 10)); }
  }

  // ------------------------------------------------------------ storing data

  function DataF(fs: Fs, b: nat, blk: Block): Fs
    requires b < |fs.blocks|
  {
    fs.(blocks := fs.blocks[b := blk])
  }

  /** b holds data: it is no indirect block and it is not free. */
  ghost predicate IsData(fs: Fs, b: nat) {
    && 0 < b < |fs.blocks| && b !in fs.avail
    && forall i: nat {:trigger Direct(i, 10)} :: i < |fs.inodes| ==> Ptr(fs, Direct(i, 10)) != b
  }

  lemma SlotIsData(fs: Fs, s: Slot)
    requires Own(fs) && IsSlot(fs, s) && Ptr(fs, s) != 0 && (s.Direct? ==> s.j != 10)
    ensures IsData(fs, Ptr(fs, s)) && Ptr(fs, s) < NBLOCKS
  {
    assert OwnedAt(fs, s);
    forall i: nat {:trigger Direct(i, 10)} | i < |fs.inodes| ensures Ptr(fs, Direct(i, 10)) != Ptr(fs, s) {
      assert ApartAt(fs, s, Direct(i, 10));
    }
  }

  lemma DataPtr(fs: Fs, b: nat, blk: Block, t: Slot)
    requires Own(fs) && IsData(fs, b)
    ensures SamePtr(fs, DataF(fs, b, blk), t)
  {
    if t.Indirect? && t.ino < |fs.inodes| { assert InodeAt(fs, t.ino) && Ptr(fs, Direct(t.ino, 10)) != b; }
  }

  lemma DataOwn(fs: Fs, b: nat, blk: Block)
    requires Own(fs) && IsData(fs, b)
    ensures Own(DataF(fs, b, blk))
  {
    var g := DataF(fs, b, blk);
    forall i ensures InodeAt(g, i) { assert InodeAt(fs, i); }
    forall t ensures OwnedAt(g, t) { DataPtr(fs, b, blk, t); assert OwnedAt(fs, t); }
    forall t, u ensures ApartAt(g, t, u) {
      DataPtr(fs, b, blk, t);
      DataPtr(fs, b, blk, u);
      assert ApartAt(fs, t, u);
    }
    forall c ensures FreeAt(g, c) { assert FreeAt(fs, c); }
  }

  /** Storing into the block of (ino, k) changes that block of that file alone. */
  lemma DataView(fs: Fs, ino: nat, k: nat, blk: Block, i: nat, n: nat)
    requires Own(fs) && ino < |fs.inodes| && k < MAXBLOCKS && Ptr(fs, SlotAt(ino, k)) != 0
    requires i < |fs.inodes| && n < MAXBLOCKS
    requires Ptr(fs, SlotAt(ino, k)) < |fs.blocks|
    ensures ViewPut(fs, DataF(fs, Ptr(fs, SlotAt(ino, k)), blk), ino, k, blk, i, n)
  {
    var s, u := SlotAt(ino, k), SlotAt(i, n);
    SlotIsData(fs, s);
    DataPtr(fs, Ptr(fs, s), blk, u);
    assert ApartAt(fs, s, u);
  }

  /** A block that no slot names holds no content. */
  lemma StrayView(fs: Fs, b: nat, blk: Block, i: nat, n: nat)
    requires Own(fs) && IsData(fs, b) && i < |fs.inodes| && n < MAXBLOCKS
    requires forall s :: IsSlot(fs, s) ==> Ptr(fs, s) != b
    ensures SameView(fs, DataF(fs, b, blk), i, n)
  {
    DataPtr(fs, b, blk, SlotAt(i, n));
    assert IsSlot(fs, SlotAt(i, n));
  }

  // --------------------------------------------- what both programs do with it

  function Resized(fs: Fs, ino: nat, size: nat, kind: nat): Fs
    requires ino < |fs.inodes|
  {
    fs.(inodes := fs.inodes[ino := fs.inodes[ino].(size := size, kind := kind)])
  }

  /** Changing the size and kind of an inode changes no pointer. */
  lemma ResizedKeeps(fs: Fs, ino: nat, size: nat, kind: nat)
    requires Own(fs) && ino < |fs.inodes|
    ensures var g := Resized(fs, ino, size, kind); Own(g) && SamePtrs(fs, g) && SameContent(fs, g)
  {
    var g := Resized(fs, ino, size, kind);
    forall i ensures InodeAt(g, i) { assert InodeAt(fs, i); }
    forall t ensures SamePtr(fs, g, t) { assert InodeAt(fs, t.ino); }
    forall t ensures OwnedAt(g, t) { assert OwnedAt(fs, t) && SamePtr(fs, g, t); }
    forall t, u ensures ApartAt(g, t, u) {
      assert ApartAt(fs, t, u) && SamePtr(fs, g, t) && SamePtr(fs, g, u);
    }
    forall c ensures FreeAt(g, c) { assert FreeAt(fs, c); }
    forall i: nat, n: nat ensures SameView(fs, g, i, n) { assert SamePtr(fs, g, SlotAt(i, n)); }
  }

  /** Store the lowest free number in slot s. */
  ghost function GrabF(fs: Fs, s: Slot): Fs
    requires Own(fs) && IsSlot(fs, s) && fs.avail != {}
    requires s.Indirect? ==> Ptr(fs, Direct(s.ino, 10)) != 0
  {
    assert FreeAt(fs, Lowest(fs.avail)) && OwnedAt(fs, Direct(s.ino, 10));
    AssignF(fs, s, Lowest(fs.avail))
  }

  /** It gives the slot one owner's block, one fewer is free, and no file reads otherwise. */
  lemma GrabKeeps(fs: Fs, s: Slot)
    requires Own(fs) && IsSlot(fs, s) && fs.avail != {} && Ptr(fs, s) == 0
    requires s.Indirect? ==> Ptr(fs, Direct(s.ino, 10)) != 0
    ensures var g := GrabF(fs, s);
      && Own(g) && SameContent(fs, g) && PtrsBut(fs, g, s)
      && Ptr(g, s) == Lowest(fs.avail) >= RESERVED && g.avail == fs.avail - {Lowest(fs.avail)}
  {
    var b, g := Lowest(fs.avail), GrabF(fs, s);
    assert FreeAt(fs, b) && OwnedAt(fs, Direct(s.ino, 10));
    AssignOwn(fs, s, b);
    AssignPtr(fs, s, b, s);
    forall t | IsSlot(fs, t) && t != s ensures SamePtr(fs, g, t) { AssignPtr(fs, s, b, t); }
    forall i: nat, n: nat | i < |fs.inodes| && n < MAXBLOCKS ensures SameView(fs, g, i, n) {
      AssignView(fs, s, b, i, n);
    }
  }

  /** The block handed out next is in use nowhere, and 0 is never handed out. */
  lemma NextUnused(fs: Fs, s: Slot)
    requires Own(fs) && fs.avail != {} && IsSlot(fs, s)
    ensures Lowest(fs.avail) >= RESERVED && Ptr(fs, s) != Lowest(fs.avail)
  {
    assert FreeAt(fs, Lowest(fs.avail)) && OwnedAt(fs, s);
  }

  /** Copy data to offset `at` of the allocated block k of file ino. */
  ghost function WriteF(fs: Fs, ino: nat, k: nat, at: nat, data: seq<byte>): Fs
    requires Own(fs) && ino < |fs.inodes| && k < MAXBLOCKS && Ptr(fs, SlotAt(ino, k)) != 0
    requires at + |data| <= 4096
  {
    SlotIsData(fs, SlotAt(ino, k));
    DataF(fs, Ptr(fs, SlotAt(ino, k)), Patch(fs.blocks[Ptr(fs, SlotAt(ino, k))], at, data))
  }

  lemma WriteKeeps(fs: Fs, ino: nat, k: nat, at: nat, data: seq<byte>)
    requires Own(fs) && ino < |fs.inodes| && k < MAXBLOCKS && Ptr(fs, SlotAt(ino, k)) != 0
    requires at + |data| <= 4096
    ensures var g := WriteF(fs, ino, k, at, data);
      && Own(g) && SamePtrs(fs, g) && g.avail == fs.avail && g.inodes == fs.inodes
      && ContentPut(fs, g, ino, k, Patch(View(fs, ino, k), at, data))
  {
    var s := SlotAt(ino, k);
    SlotIsData(fs, s);
    var blk := Patch(fs.blocks[Ptr(fs, s)], at, data);
    var g := DataF(fs, Ptr(fs, s), blk);
    DataOwn(fs, Ptr(fs, s), blk);
    forall t ensures SamePtr(fs, g, t) { DataPtr(fs, Ptr(fs, s), blk, t); }
    forall i: nat, n: nat | i < |fs.inodes| && n < MAXBLOCKS ensures ViewPut(fs, g, ino, k, blk, i, n) {
      DataView(fs, ino, k, blk, i, n);
    }
  }

  /** A block pointer location: NULL, or the address of a slot. */
  datatype Loc = Null | At(slot: Slot)

  /** Block k lies behind the indirect block, and that block is missing. */
  ghost predicate NeedsTable(fs: Fs, ino: nat, k: nat) {
    10 <= k < MAXBLOCKS && Ptr(fs, Direct(ino, 10)) == 0
  }

  /** walk_block with alloc: the indirect block is added if block k needs it. */
  ghost function WalkF(fs: Fs, ino: nat, k: nat): Fs
    requires Own(fs) && ino < |fs.inodes| && (NeedsTable(fs, ino, k) ==> fs.avail != {})
  {
    if NeedsTable(fs, ino, k) then GrabF(fs, Direct(ino, 10)) else fs
  }

  lemma WalkKeeps(fs: Fs, ino: nat, k: nat)
    requires Own(fs) && ino < |fs.inodes| && (NeedsTable(fs, ino, k) ==> fs.avail != {})
    ensures var g := WalkF(fs, ino, k);
      && Own(g) && SameContent(fs, g) && PtrsBut(fs, g, Direct(ino, 10)) && g.avail <= fs.avail
      && !NeedsTable(g, ino, k) && (NeedsTable(fs, ino, k) ==> |g.avail| == |fs.avail| - 1)
  {
    if NeedsTable(fs, ino, k) { GrabKeeps(fs, Direct(ino, 10)); }
  }

  /** What walk_block does and returns: r, and the location of the pointer of
      block k.  Past the last block the location is left as it was. */
  ghost predicate Walked(f: Fs, g: Fs, ino: nat, k: nat, alloc: bool, was: Loc, r: int, loc: Loc)
    requires Own(f) && ino < |f.inodes|
  {
    if k >= MAXBLOCKS then g == f && r == 0 && loc == was
    else if !NeedsTable(f, ino, k) then g == f && r == 0 && loc == At(SlotAt(ino, k))
    else if !alloc then g == f && r == -1 && loc == Null
    else if f.avail == {} then g == f && r == -1 && loc == was
    else g == WalkF(f, ino, k) && r == 0 && loc == At(SlotAt(ino, k))
  }

  ghost predicate HeldAt(f: Fs, ino: nat, c: nat, k: nat) {
    Ptr(f, SlotAt(ino, k)) != 0 <==> k < c
  }

  /** Exactly the first c blocks of the file are allocated. */
  ghost predicate Held(f: Fs, ino: nat, c: nat) {
    forall k: nat {:trigger HeldAt(f, ino, c, k)} :: k < MAXBLOCKS ==> HeldAt(f, ino, c, k)
  }

  /** The root directory is inode 0: whole blocks, all of them allocated. */
  ghost predicate DirOk(fs: Fs) {
    && 0 < |fs.inodes| && fs.inodes[0].size % 4096 == 0 && fs.inodes[0].size / 4096 <= MAXBLOCKS
    && Held(fs, 0, fs.inodes[0].size / 4096)
  }

  /** Walking within the directory allocates nothing. */
  lemma DirWalk(fs: Fs, i: nat)
    requires DirOk(fs) && i < fs.inodes[0].size / 4096
    ensures !NeedsTable(fs, 0, i) && Ptr(fs, SlotAt(0, i)) != 0
  {
    assert HeldAt(fs, 0, fs.inodes[0].size / 4096, i);
  }
}
