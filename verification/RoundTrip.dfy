/** The two programs together: what mkxxx stores is what the kernel reads, and what
    the kernel writes is what it reads back. */
module RoundTrip {
  import opened Mm
  import opened Kept
  import opened FsReads
  import opened Bitmap
  import opened Disk
  import opened Directory
  import opened Layout
  import opened Mkxxx
  import opened Transfer
  import opened Writing
  import opened Demand
  import opened KernelFs

  lemma {:induction false} RangeCard(s: set<nat>, lo: nat, hi: nat)
    requires lo <= hi && forall x: nat :: x in s <==> lo <= x < hi
    ensures |s| == hi - lo
    decreases hi - lo
  {
    if lo < hi {
      RangeCard(s - {lo}, lo + 1, hi);
      assert |s| == |s - {lo}| + 1;
    } else {
      assert s == {};
    }
  }

  /** On a formatted image there is an entry, an inode and room for every file. */
  lemma FreshRoom(f: Fs, g: Fs, file: seq<byte>, c: nat)
    requires Own(f) && DirOk(f) && f.inodes[0].size == 0
    requires forall b: nat :: b in f.avail <==> RESERVED <= b < NBLOCKS
    ensures DirRoom(f)
    ensures Stops(NewDirF(f), g, file, c) && c <= Chunks(|file|) ==> c == Chunks(|file|)
  {
    hide Own, Ptr, FindF;
    RangeCard(f.avail, RESERVED, NBLOCKS);
    assert RESERVED in f.avail;
    FindKeeps(f, 0, 0);
  }

  lemma FreshInode(free: set<nat>)
    requires forall i: nat :: i in free <==> 0 < i < BITS
    ensures free != {} && Lowest(free) == 1
  {
    assert 1 in free;
  }

  /** A name leads to one inode. */
  lemma FindsOne(f: Fs, name: seq<byte>, i: nat, j: nat)
    requires 0 < |f.inodes| && Finds(f, name, i) && Finds(f, name, j)
    ensures i == j
  {
    hide View, Named;
    var b := View(f, 0, 0);
    var d: nat :| d < ENTRIES && FirstNamed(b, name, d) && EntryIno(b, d) == i;
    var e: nat :| e < ENTRIES && FirstNamed(b, name, e) && EntryIno(b, e) == j;
    assert Named(b, d, name) && Named(b, e, name);
  }

  lemma FindsTaken(f: Fs, name: seq<byte>, i: nat)
    requires 0 < |f.inodes| && Finds(f, name, i)
    ensures NameTaken(f, name)
  {
    hide View, Named;
    var b := View(f, 0, 0);
    var d: nat :| d < ENTRIES && FirstNamed(b, name, d) && EntryIno(b, d) == i;
  }

  /** The kernel, which loads 128 inodes, sees the same directory and files. */
  lemma LoadedSame(f: Fs, g: Fs, name: seq<byte>, ino: nat)
    requires LOADED <= |f.inodes| && g == f.(inodes := f.inodes[..LOADED]) && ino < LOADED
    ensures Finds(g, name, ino) <==> Finds(f, name, ino)
    ensures forall k: nat {:trigger View(g, ino, k)} :: View(g, ino, k) == View(f, ino, k)
    ensures forall c: nat {:trigger Complete(g, ino, c)} :: Complete(f, ino, c) ==> Complete(g, ino, c)
    ensures DirOk(f) ==> DirOk(g)
  {
    hide Ptr;
    assert forall t: Slot {:trigger Ptr(g, t)} :: t.ino < LOADED ==> Ptr(g, t) == Ptr(f, t) by {
      forall t: Slot {:trigger Ptr(g, t)} | t.ino < LOADED ensures Ptr(g, t) == Ptr(f, t) { LoadedPtr(f, LOADED, t); }
    }
    assert View(g, 0, 0) == View(f, 0, 0);
    forall c: nat ensures Complete(f, ino, c) ==> Complete(g, ino, c) {
      if Complete(f, ino, c) {
        forall k: nat | k < MAXBLOCKS ensures HeldAt(g, ino, c, k) { assert HeldAt(f, ino, c, k); }
      }
    }
    if DirOk(f) {
      var c := f.inodes[0].size / 4096;
      forall k: nat | k < MAXBLOCKS ensures HeldAt(g, 0, c, k) { assert HeldAt(f, 0, c, k); }
    }
  }

  /** A transfer within the blocks of a complete file can be done. */
  lemma CompleteReach(f: Fs, ino: nat, c: nat, offset: nat, end: nat)
    requires Complete(f, ino, c) && c <= MAXBLOCKS && offset <= end <= 4096 * c
    ensures CanRead(f, ino, offset, end) && Allocated(f, ino, offset, end)
  {
    hide Ptr;
    forall k: nat | Touched(offset, end, k) ensures k < MAXBLOCKS && Ptr(f, SlotAt(ino, k)) != 0 {
      assert HeldAt(f, ino, c, k);
    }
  }

  /** Byte i of what was copied is byte offset+i of the file, zero after its end. */
  lemma CopiedIsFile(f: Fs, ino: nat, file: seq<byte>, offset: nat, buf: seq<byte>, n: nat, i: nat)
    requires Copied(f, ino, offset, buf, 0, n) && i < n && |file| <= 4096 * MAXBLOCKS
    requires View(f, ino, (offset + i) / 4096) == Laid(file, Chunks(|file|), (offset + i) / 4096)
    ensures i < |buf| && buf[i] == if offset + i < |file| then file[offset + i] else 0
  {
    hide View;
    assert CopiedAt(f, ino, offset, buf, 0, i);
    LaidFaithfully(file, (offset + i) / 4096, (offset + i) % 4096);
  }

  /** mkxxx builds a file system with one file; the kernel mounts it. */
  method BuildAndMount(m: Machine, image: array<Block>, name: seq<byte>, file: seq<byte>)
    returns (vol: Volume, ghost ino: nat)
    requires image.Length >= NBLOCKS && forall b :: 0 <= b < image.Length ==> image[b] == ZeroBlock()
    requires IsName(name)
    modifies image
    ensures fresh(vol) && vol.machine == m && vol.blocks == image && fresh(vol.bitmap) && fresh(vol.inodes)
    ensures vol.Valid() && DirOk(vol.S()) && 0 < ino < vol.inodes.Length && Finds(vol.S(), name, ino)
    ensures Complete(vol.S(), ino, Chunks(|file|))
    ensures forall k: nat {:trigger View(vol.S(), ino, k)} :: k < MAXBLOCKS ==>
      View(vol.S(), ino, k) == Laid(file, Chunks(|file|), k)
  {
    var img := new Image(image);
    ghost var f0 := img.S();
    FreshInode(FreeSet(img.inobitmap[..]));
    FreshRoom(f0, f0, file, 0);
    hide Own, Ptr, View, Held, DirRoom, NewDirF, FirstVacant, FirstNamed;
    var r;
    ghost var i, k, e, c;
    r, i, k, e, c := img.CreateFile(name, file);
    ino := i;
    FreshRoom(f0, img.S(), file, c);
    ghost var f := img.S();
    CreatedParts(f0, f, name, file, ino, k, e, c);
    vol := new Volume(m, img.blocks, img.bitmap, img.inodes);
    LoadedSame(f, vol.S(), name, ino);
  }

  /** The first file of a formatted image: found by its name, laid out as it is. */
  lemma CreatedParts(f0: Fs, f: Fs, name: seq<byte>, file: seq<byte>, ino: nat, k: nat, e: nat, c: nat)
    requires Created(f0, f, name, file, ino, k, e, c) && k == 0 && DirOk(f) && 0 < |f0.inodes|
    requires View(f0, 0, 0) == ZeroBlock() && 0 < f.inodes[0].size
    ensures Finds(f, name, ino)
    ensures forall n: nat {:trigger View(f, ino, n)} :: n < MAXBLOCKS ==> View(f, ino, n) == Laid(file, c, n)
  {
    NoNames(name);
    EntryFinds(f0, f, name, file, ino, k, e, c);
    hide Own, Ptr, View, Held, Named;
    forall n: nat {:trigger View(f, ino, n)} | n < MAXBLOCKS ensures View(f, ino, n) == Laid(file, c, n) {
      assert CreatedAt(f0, f, name, file, ino, k, e, c, ino, n);
    }
  }

  /** Image round trip: any file of up to 2058 blocks, any transfer within its
      blocks, across the direct/indirect boundary too. */
  method ImageRoundTrip(m: Machine, image: array<Block>, name: seq<byte>, file: seq<byte>, buf: array<byte>,
        count: nat, offset: nat)
    returns (n: int)
    requires image.Length >= NBLOCKS && forall b :: 0 <= b < image.Length ==> image[b] == ZeroBlock()
    requires IsName(name) && |file| <= 4096 * MAXBLOCKS
    requires offset + Moved(offset, count, 0) <= 4096 * Chunks(|file|) && Moved(offset, count, 0) <= buf.Length
    requires m.Valid() && |m.free| >= 1 + TransferReads(offset, count, 0)
    modifies image, buf, m, m.mem, m.count
    ensures n == Moved(offset, count, 0)
    ensures m.Valid() && |m.free| == |old(m.free)| - 1 - TransferReads(offset, count, 0)
    ensures forall i: nat :: i < n ==> buf[i] == if offset + i < |file| then file[offset + i] else 0
  {
    hide Own, Ptr, View, Held, Finds, Moved, CanRead, Allocated, Copied, Complete, DirOk, NameTaken, Machine.Valid, Has,
          PathReads, FileReads, TransferReads;
    ghost var no;
    var vol;
    vol, no := BuildAndMount(m, image, name, file);
    ghost var f, s0 := vol.S(), m.S();
    FindsTaken(f, name, no);
    FoundReads(f, name);
    var r, ino := vol.WalkPath(name);
    ghost var s1 := m.S();
    HasTaken(s0, s1, f, PathReads(f, name));
    FindsOne(f, name, no, ino);
    CompleteReach(f, ino, Chunks(|file|), offset, offset + Moved(offset, count, 0));
    ReadsAll(f, ino, offset, count, 0);
    var handle := new File(ino);
    n := vol.FileRead(handle, buf, 0, count, offset);
    HasTaken(s1, m.S(), f, FileReads(f, ino, offset, count, 0));
    ghost var b := buf[..];
    forall i: nat | i < n ensures buf[i] == if offset + i < |file| then file[offset + i] else 0 {
      CopiedIsFile(f, ino, file, offset, b, n, i);
    }
  }

  lemma CopiedIsData(f0: Fs, f: Fs, ino: nat, offset: nat, data: seq<byte>, buf: seq<byte>, start: nat, n: nat, i: nat)
    requires Wrote(f0, f, ino, offset, data, n) && AllDurable(f0, ino, offset, offset + n) && i < n
    requires Copied(f, ino, offset, buf, start, n)
    ensures start + i < |buf| && buf[start + i] == data[i]
  {
    hide View, Own, Ptr, Durable, ByteAt;
    WrittenReads(f0, f, ino, offset, data, n, i);
    assert CopiedAt(f, ino, offset, buf, start, i);
  }

  /** A write of durable blocks can be read back. */
  lemma WroteReach(f0: Fs, f: Fs, ino: nat, offset: nat, data: seq<byte>, n: nat)
    requires Wrote(f0, f, ino, offset, data, n) && AllDurable(f0, ino, offset, offset + n)
    requires CanWrite(f0, ino, offset, offset + n) && 0 < n
    ensures CanRead(f, ino, offset, offset + n) && Allocated(f, ino, offset, offset + n)
  {
    DurableAllocated(f0, f, ino, offset, offset + n);
    if offset + n > 40960 {
      var k := (offset + n - 1) / 4096;
      assert Touched(offset, offset + n, k);
    }
  }

  lemma AllocatedWants(f: Fs, ino: nat, offset: nat, end: nat)
    requires CanWrite(f, ino, offset, end) && Allocated(f, ino, offset, end)
    ensures Wanted(f, ino, offset, end) == 0
  {
    WantsNothing(f, ino, offset, end);
  }

  lemma TransferDone(offset: nat, count: nat)
    ensures TransferReads(offset, count, Moved(offset, count, 0)) == 0
  {
    TransferLaw(offset, count);
  }

  /** Read over write: where every block written is direct or allocated already, the
      kernel reads back what it wrote, if as many blocks are free as are not allocated yet;
      if all are, it always does. */
  method ReadOverWrite(vol: Volume, file: File, data: seq<byte>, buf: array<byte>, start: nat, count: nat)
    returns (r: int, n: int)
    requires vol.Valid() && file.inode < vol.inodes.Length
    requires var t := Moved(file.offset, count, 0);
      && 0 < t <= |data| && start + t <= buf.Length && CanWrite(vol.S(), file.inode, file.offset, file.offset + t)
      && AllDurable(vol.S(), file.inode, file.offset, file.offset + t)
    requires vol.machine.Valid() && |vol.machine.free| >= 2 * TransferReads(file.offset, count, 0)
    modifies vol.blocks, vol.bitmap, vol.inodes, file`offset, buf, vol.machine, vol.machine.mem, vol.machine.count
    ensures vol.Valid() && vol.machine.Valid() && (r == count || r == -1)
    ensures var f, offset := old(vol.S()), old(file.offset);
      && (r == count <==> |f.avail| >= Wanted(f, file.inode, offset, offset + Moved(offset, count, 0)))
      && (Allocated(f, file.inode, offset, offset + Moved(offset, count, 0)) ==> r == count)
    ensures r == count ==> n == Moved(old(file.offset), count, 0) && buf[start..start + n] == data[..n]
  {
    hide Own, Ptr, View, Moved, Copied, Wrote, AllDurable, Allocated, CanRead, CanWrite, Machine.Valid, TransferReads,
          FileReads, Takes, Wanted, StopsAt;
    var offset := file.offset;
    ghost var f0, ino, s0 := vol.S(), file.inode, vol.machine.S();
    n := 0;
    ghost var took;
    r, took := vol.FileWrite(file, data, count);
    ghost var end := offset + Moved(offset, count, 0);
    if Allocated(f0, ino, offset, end) { AllocatedWants(f0, ino, offset, end); }
    if r == -1 { return; }
    ghost var f := vol.S();
    TakesParts(s0, vol.machine.S(), took);
    TransferDone(offset, count);
    WroteReach(f0, f, ino, offset, data, Moved(offset, count, 0));
    ReadsAll(f, ino, offset, count, 0);
    n := vol.FileRead(file, buf, start, count, offset);
    ghost var b := buf[..];
    forall i: nat | i < n ensures start + i < |b| && b[start + i] == data[i] {
      CopiedIsData(f0, f, ino, offset, data, b, start, n, i);
    }
  }
}
