/** scripts/mkxxx.c: the image builder.  A mapped image of 4096-byte blocks; the
    two bitmaps and the inode table, which lie in blocks 2 to 13, are arrays of
    their own. */
module Mkxxx {
  import opened Bitmap
  import opened Disk
  import opened Directory
  import opened Layout

  const INODES: nat := 1280

  function BlankInode(): Inode { Inode(0, 0, [0, 0, 0, 0, 0, 0, 0, 0, 0, 0, 0]) }

  /** A zeroed image with the reserved blocks taken is in order. */
  lemma FormatOk(fs: Fs, free: set<nat>)
    requires |fs.blocks| >= NBLOCKS && forall b :: 0 <= b < |fs.blocks| ==> fs.blocks[b] == ZeroBlock()
    requires forall b: nat :: b in fs.avail <==> RESERVED <= b < NBLOCKS
    requires 0 < |fs.inodes| && 0 !in free && fs.inodes[0].size == 0
    requires forall i :: 0 <= i < |fs.inodes| ==> fs.inodes[i].ptr == BlankInode().ptr
    ensures Own(fs) && DirOk(fs) && Spare(fs, free)
  {
    forall t ensures Ptr(fs, t) == 0 { }
    forall i: nat ensures InodeAt(fs, i) { }
    forall t ensures OwnedAt(fs, t) { assert Ptr(fs, t) == 0; }
    forall t, u ensures ApartAt(fs, t, u) { assert Ptr(fs, t) == 0; }
    forall b: nat ensures FreeAt(fs, b) { }
    forall k: nat | k < MAXBLOCKS ensures HeldAt(fs, 0, 0, k) { assert Ptr(fs, SlotAt(0, k)) == 0; }
    forall i: nat ensures SpareAt(fs, free, i) { }
  }

  class Image {
    const blocks: array<Block>
    const bitmap: array<nat>
    const inobitmap: array<nat>
    const inodes: array<Inode>

    /** main, up to the call that adds the file: format a zeroed image. */
    constructor (image: array<Block>)
      requires image.Length >= NBLOCKS && forall b :: 0 <= b < image.Length ==> image[b] == ZeroBlock()
      ensures Ready() && blocks == image && fresh(bitmap) && fresh(inobitmap) && fresh(inodes)
      ensures forall b: nat :: b in S().avail <==> RESERVED <= b < NBLOCKS
      ensures forall i: nat :: i in FreeSet(inobitmap[..]) <==> 0 < i < BITS
      ensures inodes[0].size == 0 && blocks[..] == old(image[..])
    {
      blocks := image;
      var bm := AllFree();
      var im := AllFree();
      ghost var all := FreeSet(im[..]);
      var b := 0;
      while b < 14
        modifies bm
        invariant FreeSet(im[..]) == all
        invariant 0 <= b <= 14
        invariant forall n: nat :: n in FreeSet(bm[..]) <==> b <= n < BITS
      {
        SetBitmap(bm, b);
        b := b + 1;
      }
      SetBitmap(im, 0);
      ghost var free := all - {0};
      assert forall i: nat :: i in free <==> 0 < i < BITS;
      bitmap, inobitmap := bm, im;
      inodes := new Inode[INODES](i => BlankInode());
      new;
      inodes[0] := inodes[0].(kind := 1);
      assert FreeSet(inobitmap[..]) == free;
      FormatOk(S(), free);
    }

    ghost function S(): Fs
      requires bitmap.Length == WORDS
      reads blocks, bitmap, inodes
    {
      Fs(blocks[..], FreeSet(bitmap[..]), inodes[..])
    }

    ghost predicate Valid()
      reads blocks, bitmap, inodes
    {
      && bitmap != inobitmap && bitmap.Length == WORDS && inobitmap.Length == WORDS
      && inodes.Length == INODES && Own(S())
    }

    /** *diskno */
    function Deref(s: Slot): (v: nat)
      requires Valid() && IsSlot(S(), s)
      reads blocks, bitmap, inodes
      ensures v == Ptr(S(), s)
    {
      assert InodeAt(S(), s.ino) && OwnedAt(S(), Direct(s.ino, 10));
      match s
      case Direct(ino, j) => inodes[ino].ptr[j]
      case Indirect(ino, l) =>
        var t := inodes[ino].ptr[10];
        if t == 0 then 0 else Le16(blocks[t], l)
    }

    /** *diskno = bno; set_bitmap(blk_bitmap, bno) */
    method Assign(s: Slot, bno: nat)
      requires Valid() && IsSlot(S(), s) && Ptr(S(), s) == 0 && S().avail != {} && bno == Lowest(S().avail)
      requires s.Indirect? ==> Ptr(S(), Direct(s.ino, 10)) != 0
      modifies blocks, bitmap, inodes
      ensures Valid() && S() == GrabF(old(S()), s)
    {
      ghost var f := S();
      assert InodeAt(f, s.ino) && OwnedAt(f, Direct(s.ino, 10)) && FreeAt(f, bno);
      GrabKeeps(f, s);
      match s {
        case Direct(ino, j) => inodes[ino] := inodes[ino].(ptr := inodes[ino].ptr[j := bno]);
        case Indirect(ino, l) =>
          var t := inodes[ino].ptr[10];
          blocks[t] := PutLe16(blocks[t], l, bno);
      }
      SetBitmap(bitmap, bno);
      assert S() == AssignF(f, s, bno);
    }

    /** walk_block */
    method WalkBlock(ino: nat, fileno: nat, diskno: Loc, alloc: bool) returns (r: int, loc: Loc)
      requires Valid() && ino < inodes.Length
      modifies blocks, bitmap, inodes
      ensures Valid() && Walked(old(S()), S(), ino, fileno, alloc, diskno, r, loc)
    {
      loc := diskno;
      if fileno < 10 {
        loc := At(Direct(ino, fileno));
      } else if fileno < 1024 * 2 + 10 {
        var level := (fileno - 10) / 2048 + 10;
        if Deref(Direct(ino, level)) == 0 {
          if alloc {
            var bno := GetFreeNo(bitmap);
            if bno < 0 { return -1, diskno; }
            Assign(Direct(ino, level), bno);
          } else {
            return -1, Null;
          }
        }
        loc := At(Indirect(ino, (fileno - 10) % 2048));
      }
      r := 0;
    }

    /** memcpy(img_addr + bno * BLKSIZE + at, data) */
    method CopyIn(ghost ino: nat, ghost k: nat, bno: nat, at: nat, data: seq<byte>)
      requires Valid() && ino < inodes.Length && k < MAXBLOCKS && at + |data| <= 4096
      requires Ptr(S(), SlotAt(ino, k)) != 0 && bno == Ptr(S(), SlotAt(ino, k))
      modifies blocks
      ensures Valid() && S() == WriteF(old(S()), ino, k, at, data)
    {
      ghost var f := S();
      SlotIsData(f, SlotAt(ino, k));
      WriteKeeps(f, ino, k, at, data);
      blocks[bno] := Patch(blocks[bno], at, data);
      assert S() == WriteF(f, ino, k, at, data);
    }

    /** The location of the block of chunk c, allocated if it is not there. */
    method FindBlock(ino: nat, c: nat, diskno: Loc) returns (r: int, loc: Loc, bno: nat)
      requires Valid() && ino < inodes.Length
      requires c >= MAXBLOCKS ==> diskno == At(ChunkSlot(ino, c)) && Ptr(S(), ChunkSlot(ino, c)) != 0
      modifies blocks, bitmap, inodes
      ensures Valid() && (r == 0 || r == -1) && (r == 0 <==> old(Room(S(), ino, c)))
      ensures r == 0 ==>
        && S() == FindF(old(S()), ino, c) && loc == At(ChunkSlot(ino, c))
        && bno == Ptr(S(), ChunkSlot(ino, c)) != 0
      ensures r == -1 ==> TableOnly(old(S()), S(), ino, c) && S().avail == {}
    {
      ghost var f := S();
      bno := 0;
      r, loc := WalkBlock(ino, c, diskno, true);
      if r < 0 { return; }
      ghost var g := S();
      WalkKeeps(f, ino, c);
      hide Own, Ptr, WalkF, AssignF;
      bno := Deref(loc.slot);
      HoldFirst(g, ChunkSlot(ino, c));
      if bno == 0 {
        var no := GetFreeNo(bitmap);
        if no < 0 { return -1, loc, bno; }
        bno := no;
        Assign(loc.slot, bno);
      }
    }

    /** The body of write_file's inner loop. */
    method StoreBlock(ino: nat, at: nat, data: seq<byte>, diskno: Loc) returns (r: int, loc: Loc)
      requires Valid() && ino < inodes.Length && at + |data| <= 4096
      requires var c := S().inodes[ino].size / 4096;
        c >= MAXBLOCKS ==> diskno == At(ChunkSlot(ino, c)) && Ptr(S(), ChunkSlot(ino, c)) != 0
      modifies blocks, bitmap, inodes
      ensures Valid() && (r == 0 || r == -1)
      ensures var c := old(S()).inodes[ino].size / 4096;
        && (r == 0 <==> old(Room(S(), ino, c)))
        && (r == 0 ==> loc == At(ChunkSlot(ino, c)) && S() == PlaceF(old(S()), ino, c, at, data))
        && (r == -1 ==> TableOnly(old(S()), S(), ino, c) && S().avail == {})
    {
      hide Own, Ptr, WalkF, FindF, WriteF, AssignF, NeedsTable;
      ghost var f := S();
      ghost var c := f.inodes[ino].size / 4096;
      var fileno := inodes[ino].size / 4096;
      var bno;
      r, loc, bno := FindBlock(ino, fileno, diskno);
      if r < 0 { return; }
      CopyIn(ino, Min(c, MAXBLOCKS - 1), bno, at, data);
      ghost var w := S();
      ResizedKeeps(w, ino, w.inodes[ino].size + |data|, w.inodes[ino].kind);
      inodes[ino] := inodes[ino].(size := inodes[ino].size + |data|);
      assert S() == Resized(w, ino, w.inodes[ino].size + |data|, w.inodes[ino].kind);
    }

    /** The body of write_file's outer loop, for the bytes one read() returned. */
    method StoreChunk(ino: nat, buf: seq<byte>, diskno: Loc) returns (r: int, loc: Loc)
      requires Valid() && ino < inodes.Length && 0 < |buf| <= 4096 && inodes[ino].size % 4096 == 0
      requires var c := S().inodes[ino].size / 4096;
        c >= MAXBLOCKS ==> diskno == At(ChunkSlot(ino, c)) && Ptr(S(), ChunkSlot(ino, c)) != 0
      modifies blocks, bitmap, inodes
      ensures Valid() && (r == 0 || r == -1)
      ensures var c := old(S()).inodes[ino].size / 4096;
        && (r == 0 <==> old(Room(S(), ino, c)))
        && (r == 0 ==> loc == At(ChunkSlot(ino, c)) && S() == PlaceF(old(S()), ino, c, 0, buf))
        && (r == -1 ==> TableOnly(old(S()), S(), ino, c) && S().avail == {})
    {
      hide Own, Ptr, WalkF, PlaceF, NeedsTable, Room;
      ghost var c := inodes[ino].size / 4096;
      var count := |buf|;
      var offset := inodes[ino].size % 4096;
      var p, i := 0, offset;
      r, loc := 0, diskno;
      while i < count + offset
        invariant p == i <= count && Valid()
        invariant i == 0 ==> S() == old(S()) && loc == diskno
        invariant i > 0 ==> i == count && r == 0 && loc == At(ChunkSlot(ino, c))
        invariant i > 0 ==> old(Room(S(), ino, c)) && S() == PlaceF(old(S()), ino, c, 0, buf)
      {
        var bn := Min(4096 - i, count - i);
        assert buf[p..p + bn] == buf;
        r, loc := StoreBlock(ino, i % 4096, buf[p..p + bn], loc);
        if r < 0 { return -1, loc; }
        i := i + bn;
        p := p + bn;
      }
    }

    /** write_file into a new inode. */
    method WriteFile(ino: nat, file: seq<byte>) returns (r: int)
      requires Valid() && ino < inodes.Length && Blank(S(), ino) && inodes[ino].size == 0
      modifies blocks, bitmap, inodes
      ensures Valid() && (r == 0 || r == -1)
      ensures r == 0 <==> |old(S()).avail| >= Used(Chunks(|file|))
      ensures r == 0 ==> Filled(old(S()), S(), ino, file, Chunks(|file|))
      ensures r == -1 ==> var c := S().inodes[ino].size / 4096;
        && c < Chunks(|file|) && Used(c) <= |old(S()).avail| < Used(c + 1)
        && Stored(old(S()), S(), ino, file, c) && S().avail == {}
    {
      hide Own, Ptr, WalkF, PlaceF, NeedsTable, Room, Stored, View, Blank, Filled;
      ghost var f0 := S();
      ghost var c := 0;
      FilledStart(f0, ino, file);
      var pos, loc := 0, Null;
      while pos < |file|
        invariant Valid() && c <= Chunks(|file|) && pos == Min(4096 * c, |file|)
        invariant Filled(f0, S(), ino, file, c)
        invariant c > 0 ==> loc == At(ChunkSlot(ino, c - 1))
        decreases |file| - pos
      {
        ghost var f := S();
        var count := Min(4096, |file| - pos);
        var buf := file[pos..pos + count];
        pos := pos + count;
        assert buf == ChunkAt(file, c);
        FilledParts(f0, f, ino, file, c);
        var r1;
        r1, loc := StoreChunk(ino, buf, loc);
        if r1 < 0 {
          FilledIsStored(f0, f, ino, file, c);
          if S() != f { WalkIsStored(f0, f, ino, file, c, c); }
          StoredSize(f0, S(), ino, file, c);
          return -1;
        }
        FilledStep(f0, f, ino, file, c);
        c := c + 1;
      }
      FilledParts(f0, S(), ino, file, c);
      return 0;
    }

    /** walk_path: 0 if the name is taken, -1 if it is not. */
    method WalkPath(fname: seq<byte>) returns (r: int)
      requires Valid() && DirOk(S()) && IsName(fname)
      modifies blocks, bitmap, inodes
      ensures Valid() && S() == old(S())
      ensures r == if 0 < inodes[0].size && !FirstNamed(View(S(), 0, 0), fname, -1) then 0 else -1
    {
      ghost var f := S();
      var i, j, loc := 0, 0, Null;
      var fileno := inodes[0].size / 4096;
      while i < fileno
        invariant i <= fileno && Valid() && S() == f && inodes[0].size == f.inodes[0].size
        invariant if i == 0 then j == 0 else j == ENTRIES && FirstNamed(View(f, 0, 0), fname, -1)
      {
        DirWalk(f, i);
        assert OwnedAt(f, SlotAt(0, i));
        hide Own, Ptr;
        r, loc := WalkBlock(0, i, loc, false);
        if r < 0 { return -2; }
        var diskno := Deref(loc.slot);
        if diskno != 0 {
          var e;
          e, j := FindName(blocks[diskno], fname, j);
          if e >= 0 { return 0; }
        }
        i := i + 1;
      }
      return -1;
    }

    /** The first part of alloc_file: look for a vacant entry.  Within the directory
        walk_block cannot fail (DirWalk). */
    method ScanDir() returns (found: bool, k: nat, e: nat)
      requires Valid() && DirOk(S())
      modifies blocks, bitmap, inodes
      ensures Valid() && S() == old(S())
      ensures found <==> 0 < inodes[0].size && !FirstVacant(View(S(), 0, 0), -1)
      ensures found ==> k == 0 && e < ENTRIES && FirstVacant(View(S(), 0, 0), e)
    {
      ghost var f := S();
      var i, j, loc := 0, 0, Null;
      var fileno := inodes[0].size / 4096;
      while i < fileno
        invariant i <= fileno && Valid() && S() == f && inodes[0].size == f.inodes[0].size
        invariant if i == 0 then j == 0 else j == ENTRIES && FirstVacant(View(f, 0, 0), -1)
      {
        DirWalk(f, i);
        assert OwnedAt(f, SlotAt(0, i));
        hide Own, Ptr;
        var r;
        r, loc := WalkBlock(0, i, loc, true);
        var diskno := Deref(loc.slot);
        if diskno != 0 {
          var v;
          v, j := FindVacant(blocks[diskno], j);
          if v >= 0 { return true, i, v; }
        }
        i := i + 1;
      }
      return false, 0, 0;
    }

    /** Allocate directory block i, the first that is not there yet. */
    method TakeDirBlock(i: nat) returns (r: int)
      requires Valid() && DirOk(S()) && i == inodes[0].size / 4096 < MAXBLOCKS
      modifies blocks, bitmap, inodes
      ensures Valid() && r <= 0 && (r == 0 <==> old(Room(S(), 0, i)))
      ensures r == 0 ==> S() == FindF(old(S()), 0, i)
      ensures r < 0 ==> TableOnly(old(S()), S(), 0, i)
    {
      ghost var f := S();
      DirEnd(f);
      var loc;
      r, loc := WalkBlock(0, i, Null, true);
      if r < 0 { return -2; }
      ghost var g := S();
      WalkKeeps(f, 0, i);
      HoldFirst(g, SlotAt(0, i));
      hide Own, Ptr, WalkF, AssignF, Held, GrabF, HoldF;
      var bno := GetFreeNo(bitmap);
      if bno < 0 { return -1; }
      Assign(loc.slot, bno);
    }

    /** The second part of alloc_file: one more directory block. */
    method GrowDir() returns (r: int)
      requires Valid() && DirOk(S()) && inodes[0].size / 4096 < MAXBLOCKS
      modifies blocks, bitmap, inodes
      ensures Valid() && r <= 0 && (r == 0 <==> old(DirRoom(S())))
      ensures r == 0 ==> S() == NewDirF(old(S()))
      ensures r < 0 ==> TableOnly(old(S()), S(), 0, old(inodes[0].size / 4096))
      ensures Quiet(old(S()), S())
    {
      hide Own, Ptr, Held, FindF, GrabF, Room, Quiet;
      ghost var f := S();
      r := TakeDirBlock(inodes[0].size / 4096);
      if r < 0 {
        if S() == f { SameQuiet(f); } else { WalkQuiet(f, f.inodes[0].size / 4096); }
        return;
      }
      ghost var h := S();
      FindInodes(f, 0, f.inodes[0].size / 4096);
      ResizedKeeps(h, 0, f.inodes[0].size + 4096, h.inodes[0].kind);
      inodes[0] := inodes[0].(size := inodes[0].size + 4096);
      assert S() == NewDirF(f);
      NewDirKeeps(f);
    }

    /** alloc_file: the place (k, e) of a vacant directory entry. */
    method AllocFile() returns (r: int, k: nat, e: nat)
      requires Valid() && DirOk(S()) && inodes[0].size / 4096 < MAXBLOCKS
      modifies blocks, bitmap, inodes
      ensures Valid() && r <= 0 && e < ENTRIES && Quiet(old(S()), S())
      ensures r == 0 ==> k < S().inodes[0].size / 4096
      ensures var full := old(inodes[0].size == 0 || FirstVacant(View(S(), 0, 0), -1));
        && (!full ==> r == 0 && k == 0 && FirstVacant(View(S(), 0, 0), e) && S() == old(S()))
        && (full ==> (r == 0 <==> old(DirRoom(S()))))
        && (full && r == 0 ==> k == old(inodes[0].size / 4096) && e == 0 && S() == NewDirF(old(S())))
        && (full && r != 0 ==> TableOnly(old(S()), S(), 0, old(inodes[0].size / 4096)))
    {
      hide Own, Ptr, FirstVacant, Held, View, Quiet, Room;
      SameQuiet(S());
      ghost var f := S();
      var found;
      found, k, e := ScanDir();
      if found { return 0, k, e; }
      k, e := inodes[0].size / 4096, 0;
      r := GrowDir();
      if r == 0 { NewDirKeeps(f); }
    }

    /** Free inodes are blank, and the root directory is in order. */
    ghost predicate Ready()
      reads blocks, bitmap, inobitmap, inodes
    {
      Valid() && DirOk(S()) && Spare(S(), FreeSet(inobitmap[..]))
    }

    /** Take the lowest free inode and reset its size and kind. */
    method TakeInode() returns (ino: int)
      requires Valid() && (FreeSet(inobitmap[..]) != {} ==> Lowest(FreeSet(inobitmap[..])) < INODES)
      modifies inobitmap, inodes
      ensures Valid()
      ensures ino < 0 <==> old(FreeSet(inobitmap[..])) == {}
      ensures ino < 0 ==> S() == old(S()) && FreeSet(inobitmap[..]) == {}
      ensures ino >= 0 ==>
        && ino == Lowest(old(FreeSet(inobitmap[..]))) < INODES
        && FreeSet(inobitmap[..]) == old(FreeSet(inobitmap[..])) - {ino}
        && S() == Resized(old(S()), ino, 0, 0)
    {
      ghost var f := S();
      ino := GetFreeNo(inobitmap);
      if ino < 0 { return; }
      SetBitmap(inobitmap, ino);
      ResizedKeeps(f, ino, 0, 0);
      inodes[ino] := inodes[ino].(size := 0, kind := 0);
      assert S() == Resized(f, ino, 0, 0);
    }

    /** pdir->ino = ino; strncpy(pdir->name, name, 14) */
    method FillEntry(k: nat, e: nat, ino: nat, name: seq<byte>)
      requires Valid() && DirOk(S()) && k < S().inodes[0].size / 4096
      requires e < ENTRIES && ino < 0x1_0000 && IsName(name)
      modifies blocks
      ensures Valid() && SamePtrs(old(S()), S()) && S().avail == old(S()).avail && S().inodes == old(S()).inodes
      ensures ContentPut(old(S()), S(), 0, k, WithEntry(View(old(S()), 0, k), e, ino, name))
    {
      DirWalk(S(), k);
      WriteKeeps(S(), 0, k, 16 * e, EntryBytes(ino, name));
      var diskno := Deref(SlotAt(0, k));
      CopyIn(0, k, diskno, 16 * e, EntryBytes(ino, name));
    }

    /** The rest of create_file_image once the entry's place is known. */
    method Enter(name: seq<byte>, file: seq<byte>, k: nat, e: nat, ghost f0: Fs) returns (ino: int, ghost c: nat)
      requires Ready() && IsName(name) && e < ENTRIES && k < inodes[0].size / 4096 && k < MAXBLOCKS
      requires Quiet(f0, S()) && |f0.inodes| == INODES
      requires FreeSet(inobitmap[..]) != {} ==> Lowest(FreeSet(inobitmap[..])) < INODES
      modifies blocks, bitmap, inobitmap, inodes
      ensures Ready()
      ensures ino < 0 <==> old(FreeSet(inobitmap[..])) == {}
      ensures ino < 0 ==> S() == old(S()) && FreeSet(inobitmap[..]) == {}
      ensures ino >= 0 ==> OthersKept(f0, S(), ino) && inodes[0] == old(inodes[0])
      ensures ino >= 0 ==>
        && ino in old(FreeSet(inobitmap[..])) && FreeSet(inobitmap[..]) == old(FreeSet(inobitmap[..])) - {ino}
        && Created(f0, S(), name, file, ino, k, e, c) && k < inodes[0].size / 4096
        && ino == Lowest(old(FreeSet(inobitmap[..]))) && Stops(old(S()), S(), file, c)
        && (c == Chunks(|file|) ==> Complete(S(), ino, c))
    {
      ghost var f1, free := S(), FreeSet(inobitmap[..]);
      c := 0;
      ino := TakeInode();
      if ino < 0 { return; }
      assert SpareAt(f1, free, ino);
      ResizedKeeps(f1, ino, 0, 0);
      ghost var f2 := S();
      hide Own, Ptr, View, Held, Blank, Spare, Quiet, Created, Stored, Filled, FilledAt, HeldAt, Complete;
      ResizedDir(f1, ino);
      FillEntry(k, e, ino, name);
      ghost var f3 := S();
      BlankStays(f1, f2, f3, ino);
      var r := WriteFile(ino, file);
      if r == 0 {
        c := Chunks(|file|);
        FilledIsStored(f3, S(), ino, file, c);
        FilledParts(f3, S(), ino, file, c);
        FilledComplete(f3, S(), ino, file, c);
      } else {
        c := S().inodes[ino].size / 4096;
      }
      EnterKeeps(f0, f1, f2, f3, S(), name, file, free, ino, k, e, c);
    }

    /** create_file_image.  It succeeds exactly if the name is not in the first
        directory block and an entry and an inode can be found; even then the
        file is cut off after the c chunks that fit. */
    method CreateFile(name: seq<byte>, file: seq<byte>)
      returns (r: int, ghost ino: int, ghost k: nat, ghost e: nat, ghost c: nat)
      requires Ready() && IsName(name) && inodes[0].size / 4096 < MAXBLOCKS
      requires FreeSet(inobitmap[..]) != {} ==> Lowest(FreeSet(inobitmap[..])) < INODES
      modifies blocks, bitmap, inobitmap, inodes
      ensures Ready() && (r == 0 || r == -1)
      ensures r == 0 <==> old(!NameTaken(S(), name) && (Full(S()) ==> DirRoom(S())) && FreeSet(inobitmap[..]) != {})
      ensures r == -1 ==> Quiet(old(S()), S()) && FreeSet(inobitmap[..]) == old(FreeSet(inobitmap[..]))
      ensures r == -1 ==>
        if old(NameTaken(S(), name) || !Full(S())) then S() == old(S())
        else if old(DirRoom(S())) then S() == NewDirF(old(S()))
        else TableOnly(old(S()), S(), 0, old(inodes[0].size / 4096))
      ensures r == 0 ==>
        && ino == Lowest(old(FreeSet(inobitmap[..]))) && FreeSet(inobitmap[..]) == old(FreeSet(inobitmap[..])) - {ino}
        && Created(old(S()), S(), name, file, ino, k, e, c) && k < inodes[0].size / 4096
        && (c == Chunks(|file|) ==> Complete(S(), ino, c))
        && (!old(Full(S())) ==> k == 0 && FirstVacant(View(old(S()), 0, 0), e) && Stops(old(S()), S(), file, c))
        && (old(Full(S())) ==> k == old(inodes[0].size / 4096) && e == 0 && Stops(NewDirF(old(S())), S(), file, c))
      ensures r == 0 ==>
        && OthersKept(old(S()), S(), ino)
        && inodes[0].size == old(inodes[0].size) + if old(Full(S())) then 4096 else 0
      ensures r == 0 ==> (Finds(S(), name, ino) <==> old(inodes[0].size == 0 || !Full(S())))
    {
      ghost var f0 := S();
      ino, k, e, c := -1, 0, 0, 0;
      SameQuiet(f0);
      r := WalkPath(name);
      assert r == -1 <==> !NameTaken(f0, name);
      hide Own, Ptr, View, Held, Blank, Created, FirstVacant, NameTaken, NewDirF, Complete;
      if r != -1 { return -1, ino, k, e, c; }
      var kk, ee;
      r, kk, ee := AllocFile();
      QuietParts(f0, S(), FreeSet(inobitmap[..]));
      hide Spare, DirOk, Quiet, Full, SameContent;
      k, e := kk, ee;
      if r < 0 { return -1, ino, k, e, c; }
      var no;
      no, c := Enter(name, file, kk, ee, f0);
      ino := no;
      if no < 0 { return -1, ino, k, e, c; }
      CreatedFinds(f0, S(), name, file, no, k, e, c);
      r := 0;
    }
  }
}
