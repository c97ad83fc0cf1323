/** sys_execve of kernel/exec.c: clear the window, load the segments page by page
    from the file system, map a zeroed stack page, and run. */
module Exec {
  import opened Words
  import opened Vm
  import opened PageTable
  import opened AddressSpace
  import opened Teardown
  import opened UserPages
  import opened Kept
  import opened Bytes
  import opened System
  import opened Mm
  import opened ProcVm
  import opened Proc
  import opened ExecSpace
  import opened Filling
  import opened Steps
  import opened ExecSteps
  import opened Elf
  import Disk
  import opened Transfer
  import opened Writing
  import Layout
  import Directory
  import opened FsReads
  import KernelFs
  import RoundTrip

  type byte = Disk.byte

  /** The first 128 bytes of a file. */
  ghost function Header(f: Disk.Fs, ino: nat): (h: seq<byte>)
    ensures |h| == HEADER && forall i :: 0 <= i < HEADER ==> h[i] == ByteAt(f, ino, i)
  {
    seq(HEADER, i requires 0 <= i < HEADER => ByteAt(f, ino, i))
  }

  /** The file's first c blocks are there, and all that the segments take from it
      lies in them, from a block boundary on. */
  ghost predicate Backed(f: Disk.Fs, ino: nat, c: nat, segs: seq<Seg>) {
    && 1 <= c <= Disk.MAXBLOCKS && Layout.Complete(f, ino, c)
    && forall i :: 0 <= i < |segs| && segs[i].kind == PT_LOAD ==>
         segs[i].offset % 4096 == 0 && segs[i].filesz < 0x8000_0000 && segs[i].offset + segs[i].filesz <= 4096 * c
  }

  lemma ExactMoved(offset: nat, count: nat)
    requires offset % 4096 == 0 && count <= 4096
    ensures Moved(offset, count, 0) == count
  {
    TransferLaw(offset, count);
  }

  /** The blocks read for it. */
  ghost function ExactReads(f: Disk.Fs, ino: nat, count: nat, offset: nat): seq<nat> {
    FileReads(f, ino, offset, count, 0)
  }

  lemma ExactReadsAre(f: Disk.Fs, ino: nat, count: nat, offset: nat, c: nat)
    requires offset % 4096 == 0 && count <= 4096 && Layout.Complete(f, ino, c) && c <= Disk.MAXBLOCKS
    requires offset + count <= 4096 * c
    ensures |ExactReads(f, ino, count, offset)| == if count == 0 then 0 else RoundReads(offset / 4096)
  {
    hide Disk.Own, Disk.Ptr, Moved, Allocated, Layout.Complete, KernelFs.CanRead;
    ExactMoved(offset, count);
    RoundTrip.CompleteReach(f, ino, c, offset, offset + count);
    KernelFs.ReadsAll(f, ino, offset, count, 0);
    if count > 0 { assert TransferReads(offset, count, count) == 0; }
  }

  /** file_read of at most a block from a block boundary: exactly the bytes asked for. */
  method ReadExact(vol: KernelFs.Volume, file: KernelFs.File, count: nat, offset: nat, ghost c: nat)
    returns (d: seq<byte>)
    requires vol.Valid() && file.inode < vol.inodes.Length && offset % 4096 == 0 && count <= 4096
    requires Layout.Complete(vol.S(), file.inode, c) && c <= Disk.MAXBLOCKS && offset + count <= 4096 * c
    requires vol.machine.Valid() && |vol.machine.free| >= if count == 0 then 0 else RoundReads(offset / 4096)
    modifies vol.bitmap, vol.inodes, file`offset, vol.machine, vol.machine.mem, vol.machine.count
    ensures vol.Valid() && vol.S() == old(vol.S()) && vol.machine.Valid() && |d| == count
    ensures forall o: nat :: o < count ==> d[o] == ByteAt(vol.S(), file.inode, offset + o)
    ensures Has(old(vol.machine.S()), vol.machine.S(), vol.S(), ExactReads(vol.S(), file.inode, count, offset))
  {
    hide Disk.Own, Disk.Ptr, Disk.View, Moved, Allocated, ByteAt, Layout.Complete, KernelFs.CanRead, Machine.Valid, Has,
          FileReads;
    ExactMoved(offset, count);
    ExactReadsAre(vol.S(), file.inode, count, offset, c);
    RoundTrip.CompleteReach(vol.S(), file.inode, c, offset, offset + count);
    var buf := new byte[count](i => 0);
    var n := vol.FileRead(file, buf, 0, count, offset);
    d := buf[..];
    forall o: nat | o < count ensures d[o] == ByteAt(vol.S(), file.inode, offset + o) {
      assert KernelFs.CopiedAt(vol.S(), file.inode, offset, d, 0, o);
    }
  }

  lemma FileIs(d: seq<byte>, f: Disk.Fs, ino: nat, g: Seg, k: nat)
    requires 4096 * k <= g.filesz && |d| == Disk.Min(4096, g.filesz - 4096 * k)
    requires forall o: nat :: o < |d| ==> d[o] == ByteAt(f, ino, g.offset + 4096 * k + o)
    ensures d == FileBytes(Stored(f, ino), g, k)
  {
    hide ByteAt;
    assert forall o :: 0 <= o < |d| ==> d[o] == At(Stored(f, ino), g.offset + 4096 * k + o);
  }

  /** memory of frame pp from its start on = data */
  method CopyToFrame(m: Machine, pp: nat, data: seq<byte>) returns (ghost d: Frame)
    requires m.Valid() && pp < m.mem.Length && m.role[pp].Data? && |data| <= 4096
    modifies m.mem
    ensures m.Valid() && m.S() == FillF(old(m.S()), pp, d) && d == WithBytes(old(m.mem[pp]), data)
  {
    hide WithBytes, Inv, FreeExact, Linked;
    d := WithBytes(m.mem[pp], data);
    m.FillFrame(pp, WithBytes(m.mem[pp], data));
  }

  /** The segment is loaded from blocks that are there. */
  ghost predicate Loads(f: Disk.Fs, ino: nat, c: nat, g: Seg) {
    && SegOk(g) && g.kind == PT_LOAD && g.offset % 4096 == 0 && g.filesz < 0x8000_0000 && g.offset + g.filesz <= 4096 * c
    && Layout.Complete(f, ino, c) && c <= Disk.MAXBLOCKS
  }

  /** The blocks read to fill page k of a segment. */
  ghost function PageBlocks(f: Disk.Fs, ino: nat, g: Seg, k: nat): seq<nat> {
    if 4096 * k > g.filesz then [] else
      ExactReads(f, ino, Disk.Min(4096, g.filesz - 4096 * k), g.offset + 4096 * k)
  }

  lemma PageBlocksAre(f: Disk.Fs, ino: nat, c: nat, g: Seg, k: nat)
    requires Loads(f, ino, c, g)
    ensures |PageBlocks(f, ino, g, k)| == PageReads(g, k)
  {
    hide Layout.Complete;
    if 4096 * k <= g.filesz { ExactReadsAre(f, ino, Disk.Min(4096, g.filesz - 4096 * k), g.offset + 4096 * k, c); }
  }

  /** The frame of a page: from the file as far as it goes, else zeroed. */
  method PageFrame(m: Machine, vol: KernelFs.Volume, file: KernelFs.File, g: Seg, k: nat, ghost c: nat)
    returns (pp: nat, ghost page: Mapping)
    requires m.Valid() && vol.Valid() && vol.machine == m && file.inode < vol.inodes.Length
    requires Loads(vol.S(), file.inode, c, g) && |m.free| >= 1 + PageReads(g, k)
    modifies m, m.mem, m.count, vol.bitmap, vol.inodes, file`offset
    ensures m.Valid() && vol.Valid() && vol.S() == old(vol.S())
    ensures page.v == FirstPage(g) + k && page.kept == Contents(vol.S(), PageBlocks(vol.S(), file.inode, g, k))
    ensures |page.kept| == PageReads(g, k)
    ensures pp == old(m.free)[0] < |old(m.S()).mem| && m.S() == ReadInF(old(m.S()), page.page, page.kept)
    ensures PageGood(page.page, old(m.S()).mem[pp], Stored(vol.S(), file.inode), g, k)
  {
    hide Inv, PageGood, Layout.Complete, ByteAt, Disk.Own, WithBytes, AllocF, FillF, Has, FileReads, Machine.Valid,
          KeepAllF,
          Contents, FirstPage;
    ghost var s, f := m.S(), vol.S();
    m.ValidInv();
    FrameParts(s);
    ghost var was := s.mem[s.free[0]];
    PageOfGood(was, Stored(f, file.inode), g, k);
    PageBlocksAre(f, file.inode, c, g, k);
    ghost var kept := Contents(f, PageBlocks(f, file.inode, g, k));
    ghost var d;
    var j := 4096 * k;
    var remaining: int := g.filesz - j;
    if remaining >= 0 {
      pp := TakePage(m, 0);
      ghost var a := m.S();
      var data := ReadExact(vol, file, Disk.Min(4096, remaining), g.offset + j, c);
      FileIs(data, f, file.inode, g, k);
      HasFrame(s, a, m.S(), f, PageBlocks(f, file.inode, g, k));
      d := CopyToFrame(m, pp, data);
    } else {
      pp := TakePage(m, 1);
      d := ZeroFrame();
      assert kept == [];
      ZeroReadIn(s);
    }
    page := Mapping(FirstPage(g) + k, d, kept);
  }

  /** alloc_page, where a frame is free. */
  method TakePage(m: Machine, flags: nat) returns (pp: nat)
    requires m.Valid() && m.free != []
    modifies m, m.mem, m.count
    ensures m.Valid() && pp == old(m.free)[0] < |m.S().mem| && m.S() == AllocF(old(m.S()), flags % 2 == 1)
  {
    hide FreeExact, Linked, Inv, AllocF;
    AllocInv(m.S(), flags % 2 == 1);
    FrameParts(m.S());
    var p := m.AllocPage(flags);
    pp := p;
  }

  /** While blocks are read the page's frame stays as it is. */
  lemma HasFrame(s: Vm, a: Vm, t: Vm, f: Disk.Fs, list: seq<nat>)
    requires Inv(s) && s.free != [] && s.free[0] < |s.mem| && a == AllocF(s, false) && Has(a, t, f, list)
    ensures |s.free| >= 1 + |list| && s.free[0] < |t.mem| == |t.role| && t.role[s.free[0]].Data?
    ensures t.mem[s.free[0]] == s.mem[s.free[0]]
    ensures forall d :: ReadInF(s, d, Contents(f, list)) == FillF(t, s.free[0], d)
  {
    hide Inv, KeepAllF;
    HasTaken(a, t, f, list);
    FrameParts(s);
    SizedAll(t);
  }

  lemma ZeroReadIn(s: Vm)
    requires Inv(s) && s.free != []
    ensures ReadInF(s, ZeroFrame(), []) == AllocF(s, true)
  {
    hide Inv;
    SizedAll(s);
    FrameParts(s);
    assert KeepAllF(AllocF(s, false), []) == AllocF(s, false);
  }

  lemma FrameParts(s: Vm)
    requires Inv(s) && s.free != []
    ensures s.free[0] < |s.mem| && Inv(AllocF(s, false)) && Inv(AllocF(s, true))
    ensures AllocF(s, false).mem == s.mem && |AllocF(s, false).free| == |s.free| - 1
    ensures AllocF(s, true) == FillF(AllocF(s, false), s.free[0], ZeroFrame())
    ensures s.free[0] < |AllocF(s, false).role| && AllocF(s, false).role[s.free[0]].Data?
  {
    AllocInv(s, false);
    AllocInv(s, true);
    ZeroAlloc(s);
  }

  lemma InsertParts(s: Vm, b: Vm, r: nat, m: Mapping)
    requires Mappable(s, r, m.v, |m.kept|) && b == ReadInF(s, m.page, m.kept)
    ensures Inv(b) && Space(b, r) && |b.free| >= Missing(b.ent, r, m.v) && K0(r, m.v) !in b.ent
    ensures s.free[0] < |b.mem| == |b.role| && b.role[s.free[0]].Data? && Lower(m.v)
    ensures PageInF(s, r, m.v, m.page, m.kept) == InsertF(b, r, m.v, s.free[0], UWP)
  {
    hide Inv, K0, K1, K2, K3, Missing, InsertF, ReadInF;
    PageInReady(s, r, m.v, m.page, m.kept);
    SizedAll(b);
  }

  /** One round of the loading loop. */
  method LoadPage(m: Machine, r: nat, vol: KernelFs.Volume, file: KernelFs.File, g: Seg, k: nat, ghost c: nat)
    returns (ghost page: Mapping)
    requires m.Valid() && vol.Valid() && vol.machine == m && file.inode < vol.inodes.Length
    requires Loads(vol.S(), file.inode, c, g) && Mappable(m.S(), r, FirstPage(g) + k, PageReads(g, k))
    modifies m, m.mem, m.count, vol.bitmap, vol.inodes, file`offset
    ensures m.Valid() && vol.Valid() && vol.S() == old(vol.S())
    ensures page.v == FirstPage(g) + k && |page.kept| == PageReads(g, k)
    ensures m.S() == MapF(old(m.S()), r, page) && old(m.free)[0] < |old(m.S()).mem|
    ensures PageGood(page.page, old(m.S()).mem[old(m.free)[0]], Stored(vol.S(), file.inode), g, k)
  {
    hide Machine.Valid, Inv, PageGood, Disk.Own, K0, Missing, InsertF, PageInF, Loads, FirstPage, ReadInF, Contents;
    ghost var s, v := m.S(), FirstPage(g) + k;
    var pp;
    pp, page := PageFrame(m, vol, file, g, k, c);
    InsertParts(s, m.S(), r, page);
    assert (FirstPage(g) + k) * 4096 / 4096 == v;
    var ret := m.InsertPage(r, FirstPage(g) * 4096 + k * 4096, pp, UWP);
  }

  /** Loading under way: on the cleared machine u the window has been filled with the
      pages of the first i segments and n of the next, and there are frames for all. */
  ghost predicate Loading(u: Vm, t: Vm, r: nat, f: Disk.Fs, ino: nat, segs: seq<Seg>, plan: seq<Mapping>, i: nat, n: nat) {
    && i <= |segs|
    && Filled(u, t, r, Stored(f, ino), segs, plan, i, n, ReadsUpTo(segs, i, n), ImageReads(segs, |segs|))
  }

  /** The next page of the image can be mapped. */
  lemma LoadingReady(u: Vm, t: Vm, r: nat, f: Disk.Fs, ino: nat, segs: seq<Seg>, plan: seq<Mapping>, i: nat, n: nat)
    requires Loading(u, t, r, f, ino, segs, plan, i, n) && i < |segs| && n < PageCount(segs[i])
    ensures Plannable(u, r, plan) && t == LoadF(u, r, plan)
    ensures Roomy(u, r, plan, FirstPage(segs[i]) + n, PageReads(segs[i], n))
    ensures Mappable(t, r, FirstPage(segs[i]) + n, PageReads(segs[i], n))
  {
    hide Filled, PageReads, Plannable, LoadF, Roomy, Mappable, FirstPage, PageCount;
    ReadsWithin(segs, i, n + 1);
    FilledReady(u, t, r, Stored(f, ino), segs, plan, i, n, ReadsUpTo(segs, i, n), ImageReads(segs, |segs|),
      PageReads(segs[i], n));
  }

  lemma LoadingMore(u: Vm, t: Vm, r: nat, f: Disk.Fs, ino: nat, segs: seq<Seg>, plan: seq<Mapping>, i: nat, n: nat,
                    m: Mapping)
    requires Loading(u, t, r, f, ino, segs, plan, i, n) && i < |segs| && n < PageCount(segs[i])
    requires m.v == FirstPage(segs[i]) + n && |m.kept| == PageReads(segs[i], n) && Mappable(t, r, m.v, |m.kept|)
    requires Roomy(u, r, plan, m.v, |m.kept|) && t.free != [] && t.free[0] < |t.mem|
    requires PageGood(m.page, t.mem[t.free[0]], Stored(f, ino), segs[i], n)
    ensures Loading(u, MapF(t, r, m), r, f, ino, segs, plan + [m], i, n + 1)
  {
    hide Filled, PageReads, Mappable, Roomy, FirstPage, PageCount, PageGood, MapF;
    ReadsWithin(segs, i, n + 1);
    FilledMore(u, t, r, Stored(f, ino), segs, plan, i, n, ReadsUpTo(segs, i, n), ImageReads(segs, |segs|), m);
  }

  lemma LoadingNext(u: Vm, t: Vm, r: nat, f: Disk.Fs, ino: nat, segs: seq<Seg>, plan: seq<Mapping>, i: nat)
    requires i < |segs| && Loading(u, t, r, f, ino, segs, plan, i, PageCount(segs[i]))
    ensures Loading(u, t, r, f, ino, segs, plan, i + 1, 0)
  {
    hide Filled, PageCount;
    FilledNext(u, t, r, Stored(f, ino), segs, plan, i, ReadsUpTo(segs, i, PageCount(segs[i])), ImageReads(segs, |segs|));
  }

  lemma BackedLoads(f: Disk.Fs, ino: nat, c: nat, segs: seq<Seg>, i: nat)
    requires Backed(f, ino, c, segs) && SegsOk(segs) && i < |segs| && segs[i].kind == PT_LOAD
    ensures Loads(f, ino, c, segs[i])
  {
    hide Layout.Complete;
  }

  lemma LoadingSegs(u: Vm, t: Vm, r: nat, f: Disk.Fs, ino: nat, segs: seq<Seg>, plan: seq<Mapping>, i: nat, n: nat)
    requires Loading(u, t, r, f, ino, segs, plan, i, n)
    ensures SegsOk(segs) && i <= |segs|
  {
  }

  /** One round, seen from the whole. */
  method LoadRound(m: Machine, r: nat, vol: KernelFs.Volume, file: KernelFs.File, segs: seq<Seg>, i: nat, n: nat,
                   ghost c: nat, ghost u: Vm, ghost before: seq<Mapping>)
    returns (ghost plan: seq<Mapping>)
    requires m.Valid() && vol.Valid() && vol.machine == m && file.inode < vol.inodes.Length && i < |segs|
    requires n < PageCount(segs[i])
    requires Loads(vol.S(), file.inode, c, segs[i])
    requires Loading(u, m.S(), r, vol.S(), file.inode, segs, before, i, n)
    modifies m, m.mem, m.count, vol.bitmap, vol.inodes, file`offset
    ensures m.Valid() && vol.Valid() && vol.S() == old(vol.S())
    ensures Loading(u, m.S(), r, vol.S(), file.inode, segs, plan, i, n + 1)
  {
    hide Machine.Valid, Loading, Loads, PageGood, MapF, PageCount, FirstPage, Inv, K0, Missing, Plannable, LoadF, Need,
          PagesIn, Mapped, Mappable, Roomy, LoadF, Disk.Own, PageReads;
    ghost var t, f, ino := m.S(), vol.S(), file.inode;
    LoadingReady(u, t, r, f, ino, segs, before, i, n);
    MappableFrame(t, r, FirstPage(segs[i]) + n, PageReads(segs[i], n));
    ghost var page := LoadPage(m, r, vol, file, segs[i], n, c);
    LoadingMore(u, t, r, f, ino, segs, before, i, n, page);
    plan := before + [page];
  }

  /** The loading loop of one segment. */
  method LoadPages(m: Machine, r: nat, vol: KernelFs.Volume, file: KernelFs.File, segs: seq<Seg>, i: nat,
                   ghost c: nat, ghost u: Vm, ghost before: seq<Mapping>)
    returns (ghost plan: seq<Mapping>)
    requires m.Valid() && vol.Valid() && vol.machine == m && file.inode < vol.inodes.Length && i < |segs|
    requires segs[i].kind == PT_LOAD
    requires Loads(vol.S(), file.inode, c, segs[i])
    requires Loading(u, m.S(), r, vol.S(), file.inode, segs, before, i, 0)
    modifies m, m.mem, m.count, vol.bitmap, vol.inodes, file`offset
    ensures m.Valid() && vol.Valid() && vol.S() == old(vol.S())
    ensures Loading(u, m.S(), r, vol.S(), file.inode, segs, plan, i, PageCount(segs[i]))
  {
    hide Machine.Valid, Machine.S, Disk.Own, Loading, PageCount, Loads;
    ghost var f, ino := vol.S(), file.inode;
    plan := before;
    var memsz := (segs[i].memsz + 4096 - 1) / 4096 * 4096;
    PagesAre(segs[i]);
    var j := 0;
    while j < memsz
      invariant j % 4096 == 0 && j / 4096 <= PageCount(segs[i])
      invariant m.Valid() && vol.Valid() && vol.S() == f
      invariant Loading(u, m.S(), r, f, ino, segs, plan, i, j / 4096)
    {
      plan := LoadRound(m, r, vol, file, segs, i, j / 4096, c, u, plan);
      j := j + 4096;
    }
  }

  lemma PagesAre(g: Seg)
    requires g.kind == PT_LOAD
    ensures PageCount(g) * 4096 == (g.memsz + 4096 - 1) / 4096 * 4096
  {
  }

  /** One program header: a segment to load, or another kind, which is ignored. */
  method LoadSegment(m: Machine, r: nat, vol: KernelFs.Volume, file: KernelFs.File, segs: seq<Seg>, i: nat,
                     ghost c: nat, ghost u: Vm, ghost before: seq<Mapping>)
    returns (ghost plan: seq<Mapping>)
    requires m.Valid() && vol.Valid() && vol.machine == m && file.inode < vol.inodes.Length && i < |segs|
    requires Backed(vol.S(), file.inode, c, segs)
    requires Loading(u, m.S(), r, vol.S(), file.inode, segs, before, i, 0)
    modifies m, m.mem, m.count, vol.bitmap, vol.inodes, file`offset
    ensures m.Valid() && vol.Valid() && vol.S() == old(vol.S())
    ensures Loading(u, m.S(), r, vol.S(), file.inode, segs, plan, i + 1, 0)
  {
    hide Machine.Valid, Machine.S, Disk.Own, Loading, Backed, Loads;
    plan := before;
    if segs[i].kind == PT_LOAD {
      LoadingSegs(u, m.S(), r, vol.S(), file.inode, segs, plan, i, 0);
      BackedLoads(vol.S(), file.inode, c, segs, i);
      plan := LoadPages(m, r, vol, file, segs, i, c, u, plan);
    }
    LoadingNext(u, m.S(), r, vol.S(), file.inode, segs, plan, i);
  }

  /** All program headers in turn. */
  method LoadAll(m: Machine, r: nat, vol: KernelFs.Volume, file: KernelFs.File, bin: seq<byte>, ghost c: nat,
                 ghost u: Vm)
    returns (ghost plan: seq<Mapping>)
    requires m.Valid() && vol.Valid() && vol.machine == m && file.inode < vol.inodes.Length && |bin| == HEADER
    requires HeadersFit(bin)
    requires Backed(vol.S(), file.inode, c, Segs(bin))
    requires Loading(u, m.S(), r, vol.S(), file.inode, Segs(bin), [], 0, 0)
    modifies m, m.mem, m.count, vol.bitmap, vol.inodes, file`offset
    ensures m.Valid() && vol.Valid() && vol.S() == old(vol.S())
    ensures Loading(u, m.S(), r, vol.S(), file.inode, Segs(bin), plan, Phnum(bin), 0)
  {
    hide Machine.Valid, Loading, Backed, PageCount, Disk.Own, Le;
    ghost var f, ino := vol.S(), file.inode;
    plan := [];
    var segs := Segs(bin);
    var i := 0;
    while i < Phnum(bin)
      invariant i <= Phnum(bin) && m.Valid() && vol.Valid() && vol.S() == f
      invariant Loading(u, m.S(), r, f, ino, segs, plan, i, 0)
    {
      plan := LoadSegment(m, r, vol, file, segs, i, c, u, plan);
      i := i + 1;
    }
  }

  /** The stack page: a zeroed frame below USTACKTOP. */
  method MapStack(m: Machine, r: nat, ghost u: Vm, ghost src: Source, ghost segs: seq<Seg>, ghost plan: seq<Mapping>,
                  ghost total: nat)
    requires m.Valid() && Filled(u, m.S(), r, src, segs, plan, |segs|, 0, total, total)
    modifies m, m.mem, m.count
    ensures m.Valid() && Imaged(u, m.S(), r, src, segs, plan + [StackPage()], total)
  {
    hide Machine.Valid, Inv, Missing, K0, MapF, Filled, Imaged, Plannable, LoadF, Roomy, StackPage;
    ghost var t := m.S();
    StackRoomy(u, t, r, src, segs, plan, total);
    StackDone(u, t, r, src, segs, plan, total);
    StackIs();
    InsertStack(m, r);
  }

  method InsertStack(m: Machine, r: nat)
    requires m.Valid() && Mappable(m.S(), r, STACK, 0)
    modifies m, m.mem, m.count
    ensures m.Valid() && m.S() == MapF(old(m.S()), r, StackPage())
  {
    hide Machine.Valid, Inv, K0, Missing, InsertF, PageInF, AllocF, ReadInF;
    ghost var t := m.S();
    MappableFrame(t, r, STACK, 0);
    FrameParts(t);
    ZeroReadIn(t);
    var pp := TakePage(m, 1);
    InsertParts(t, m.S(), r, StackPage());
    var ret := m.InsertPage(r, 0x8FFF_F000 - 4096, pp, UWP);
  }

  /** The file can be loaded: its headers fit, its segments are in order and backed by
      its blocks.  There is a frame for the directory block, and once the window is
      cleared there are frames for that one and the first block of the file, and for a
      file with the ELF magic also one for each page, the stack's included, for each
      table that is missing, and for each block that is read to fill the pages. */
  ghost predicate Loadable(f: Disk.Fs, ino: nat, c: nat, s: Vm) {
    var h := Header(f, ino);
    && 1 <= c <= Disk.MAXBLOCKS && Layout.Complete(f, ino, c)
    && Openable(s)
    && (Magic(h) ==>
          && HeadersFit(h) && SegsOk(Segs(h)) && Backed(f, ino, c, Segs(h))
          && |ClearF(s, s.cr3).free| >=
               2 + Need(s.ent, s.cr3, ImagePages(Segs(h))) + ImageReads(Segs(h), |Segs(h)|))
  }

  lemma SameBytes(d: seq<byte>, f: Disk.Fs, ino: nat)
    requires |d| == HEADER && forall o: nat :: o < HEADER ==> d[o] == ByteAt(f, ino, 0 + o)
    ensures d == Header(f, ino)
  {
    hide ByteAt;
    assert forall i :: 0 <= i < HEADER ==> d[i] == Header(f, ino)[i];
  }

  /** file_open: the directory block stays in a frame. */
  method Open(vol: KernelFs.Volume, name: seq<byte>, ghost ino: nat)
    returns (file: KernelFs.File, ghost dir: Frame)
    requires vol.Valid() && Disk.DirOk(vol.S()) && Directory.IsName(name)
    requires Layout.Finds(vol.S(), name, ino) && ino < vol.inodes.Length
    requires vol.machine.Valid() && vol.machine.free != []
    modifies vol.bitmap, vol.inodes, vol.machine, vol.machine.mem, vol.machine.count
    ensures vol.Valid() && vol.S() == old(vol.S()) && fresh(file) && file.inode == ino && vol.machine.Valid()
    ensures Inv(old(vol.machine.S())) && vol.machine.S() == KeepF(old(vol.machine.S()), dir)
  {
    hide Layout.Finds, Layout.NameTaken, Disk.Own, Machine.Valid, Has, Inv, PathReads, KeepF, Contents;
    ghost var f := vol.S();
    RoundTrip.FindsTaken(f, name, ino);
    KernelFs.FoundReads(f, name);
    var w, no := vol.WalkPath(name);
    HasSingle(old(vol.machine.S()), vol.machine.S(), f, PathReads(f, name));
    dir := Contents(f, PathReads(f, name))[0];
    RoundTrip.FindsOne(f, name, ino, no);
    file := new KernelFs.File(no);
  }

  method ReadHeader(vol: KernelFs.Volume, file: KernelFs.File, ghost c: nat)
    returns (bin: seq<byte>, ghost header: Frame)
    requires vol.Valid() && file.inode < vol.inodes.Length
    requires 1 <= c <= Disk.MAXBLOCKS && Layout.Complete(vol.S(), file.inode, c)
    requires vol.machine.Valid() && vol.machine.free != []
    modifies vol.bitmap, vol.inodes, file`offset, vol.machine, vol.machine.mem, vol.machine.count
    ensures vol.Valid() && vol.S() == old(vol.S()) && bin == Header(vol.S(), file.inode) && vol.machine.Valid()
    ensures Inv(old(vol.machine.S())) && vol.machine.S() == KeepF(old(vol.machine.S()), header)
  {
    hide Disk.Own, ByteAt, Machine.Valid, Has, Inv, KeepF, Contents, ExactReads, Layout.Complete;
    ghost var f := vol.S();
    ExactReadsAre(f, file.inode, HEADER, 0, c);
    bin := ReadExact(vol, file, HEADER, 0, c);
    HasSingle(old(vol.machine.S()), vol.machine.S(), f, ExactReads(f, file.inode, HEADER, 0));
    header := Contents(f, ExactReads(f, file.inode, HEADER, 0))[0];
    SameBytes(bin, vol.S(), file.inode);
  }

  /** The new image in the cleared window. */
  method Load(m: Machine, r: nat, vol: KernelFs.Volume, file: KernelFs.File, bin: seq<byte>, ghost c: nat)
    returns (ghost plan: seq<Mapping>)
    requires m.Valid() && vol.Valid() && vol.machine == m && file.inode < vol.inodes.Length
    requires |bin| == HEADER && HeadersFit(bin) && Backed(vol.S(), file.inode, c, Segs(bin)) && SegsOk(Segs(bin))
    requires Mapped(m.S(), m.S(), r, map[])
    requires |m.free| >= Need(m.ent, r, ImagePages(Segs(bin))) + ImageReads(Segs(bin), |Segs(bin)|)
    modifies m, m.mem, m.count, vol.bitmap, vol.inodes, file`offset
    ensures m.Valid() && vol.Valid() && vol.S() == old(vol.S())
    ensures Imaged(old(m.S()), m.S(), r, Stored(vol.S(), file.inode), Segs(bin), plan, ImageReads(Segs(bin), |Segs(bin)|))
  {
    hide Machine.Valid, Inv, Mapped, Backed, SegsOk, Filled, Disk.Own, Imaged, Need;
    ghost var u, src, segs := m.S(), Stored(vol.S(), file.inode), Segs(bin);
    FilledStart(u, r, src, segs, ImageReads(segs, |segs|));
    plan := LoadAll(m, r, vol, file, bin, c, u);
    MapStack(m, r, u, src, segs, plan, ImageReads(segs, |segs|));
    plan := plan + [StackPage()];
  }

  lemma ValidParts(y: Sys)
    requires System.Valid(y)
    ensures Inv(y.vm) && UserOk(y.vm)
    ensures y.current != -1 ==> 0 <= y.current && y.current in y.pgdir && y.pgdir[y.current] == y.vm.cr3
  {
  }

  /** What the new frames held before exec. */
  ghost predicate Stale(s: Vm, t: Vm, r: nat, was: map<nat, Frame>) {
    forall v :: v in was ==>
      K0(r, v) in t.ent && FrameOf(t.ent[K0(r, v)]) < |s.mem| && was[v] == s.mem[FrameOf(t.ent[K0(r, v)])]
  }

  /** The complete image is exec's step. */
  lemma ImagedStep(y: Sys, dir: Frame, header: Frame, t: Vm, f: Disk.Fs, ino: nat, segs: seq<Seg>, plan: seq<Mapping>)
    requires System.Valid(y) && y.current != -1 && UserOk(y.vm) && Openable(y.vm)
    requires Imaged(HeadF(y.vm, dir, header), t, y.vm.cr3, Stored(f, ino), segs, plan, ImageReads(segs, |segs|))
    ensures Enabled(y, Op.Exec(dir, header, plan)) && Step(y, Op.Exec(dir, header, plan)) == WithWindow(y, t)
    ensures Inv(y.vm) && System.Valid(WithWindow(y, t)) && t.tlb == map[] && t.cr3 == y.vm.cr3
  {
    hide System.Valid, HeadF, LoadF, Inv, Mapped, Need, Fits, PagesIn, Placed, Clearable, Imaged, Plannable, ClearF,
          UserOk,
          TableKeys;
    var u, r := HeadF(y.vm, dir, header), y.vm.cr3;
    ImagedParts(u, t, r, Stored(f, ino), segs, plan, ImageReads(segs, |segs|));
    CurrentSpace(y);
    HeadWindow(y.vm, dir, header);
    NeedSame(y.vm.ent, u.ent, r, PagesIn(plan).Keys);
    ExecRefines(y, dir, header, plan);
    HeadTlb(y.vm, dir, header);
    PlacedRest(u, t, r, PagesIn(plan), KeptIn(plan));
  }

  /** The new frames were not written to before they got their content. */
  lemma ImagedStale(s: Vm, dir: Frame, header: Frame, t: Vm, pages: map<nat, Frame>, n: nat)
    requires UserOk(s) && Openable(s) && Placed(HeadF(s, dir, header), t, s.cr3, pages, n)
    ensures Stale(s, t, s.cr3, WasIn(HeadF(s, dir, header), t, s.cr3, pages, n))
  {
    hide HeadF, Inv, Mapped, Need, Placed, Openable, UserOk;
    var u, r := HeadF(s, dir, header), s.cr3;
    forall v | v in pages
      ensures K0(r, v) in t.ent && FrameOf(t.ent[K0(r, v)]) < |s.mem|
      ensures WasIn(u, t, r, pages, n)[v] == s.mem[FrameOf(t.ent[K0(r, v)])]
    {
      WasBefore(s, dir, header, t, pages, n, v);
    }
  }

  lemma PlacedRest(u: Vm, t: Vm, r: nat, pages: map<nat, Frame>, n: nat)
    requires Placed(u, t, r, pages, n)
    ensures t.tlb == u.tlb - pages.Keys && t.cr3 == u.cr3
  {
  }

  /** run_proc, once the machine holds the new image. */
  method Resume(k: Kernel, ghost y: Sys)
    requires y.current != -1 && k.Rep() && k.Live() == y.pgdir && k.slots == y.slots && k.current == y.current
    requires System.Valid(y) && System.Valid(WithWindow(y, k.m.S()))
    requires k.m.tlb == map[] && k.m.cr3 == y.vm.cr3
    modifies k`current, k.m`cr3, k.m`tlb
    ensures k.Ok() && k.Y() == WithWindow(y, old(k.m.S()))
  {
    hide Inv, System.Valid, Linked, FreeExact;
    ghost var t := k.m.S();
    ValidParts(y);
    assert k.Y() == WithWindow(y, t);
    ValidParts(k.Y());
    k.RunProc(k.current);
    assert k.Y() == WithWindow(y, t);
  }

  /** The PML4 of the running process. */
  method CurrentRoot(k: Kernel) returns (r: nat)
    requires k.Ok() && k.current != -1
    ensures r == k.m.cr3 == k.Y().vm.cr3 && k.m.S() == k.Y().vm && UserOk(k.Y().vm)
  {
    CurrentParts(k.Y());
    r := k.pgdir[k.current];
  }

  /** The first part of exec: open the file, clear the window, read the header. */
  method Begin(k: Kernel, vol: KernelFs.Volume, name: seq<byte>, ghost ino: nat, ghost c: nat)
    returns (root: nat, pfile: KernelFs.File, bin: seq<byte>, ghost dir: Frame, ghost header: Frame)
    requires k.Ok() && k.current != -1 && vol.Valid() && vol.machine == k.m
    requires Disk.DirOk(vol.S()) && Directory.IsName(name) && Layout.Finds(vol.S(), name, ino) &&
          ino < vol.inodes.Length
    requires 1 <= c <= Disk.MAXBLOCKS && Layout.Complete(vol.S(), ino, c) && Openable(k.m.S())
    modifies k.m, k.m.mem, k.m.count, k.m.link, vol.bitmap, vol.inodes
    ensures vol.Valid() && vol.S() == old(vol.S()) && fresh(pfile) && pfile.inode == ino && bin == Header(vol.S(), ino)
    ensures k.m.Valid() && root == old(k.m.cr3) && UserOk(old(k.m.S()))
    ensures k.m.S() == HeadF(old(k.m.S()), dir, header)
  {
    hide Machine.Valid, Inv, System.Valid, Linked, FreeExact, Disk.Own, Disk.DirOk, Kernel.Live, KeepF, Takes, UserOk,
          Layout.Finds, Layout.Complete, RemoveAllF;
    ghost var s := k.m.S();
    root := CurrentRoot(k);
    pfile, dir := Open(vol, name, ino);
    HeadTakes(s, dir);
    RemoveAll(k.m, root);
    bin, header := ReadHeader(vol, pfile, c);
  }

  /** The last part: load what the file describes, and run it. */
  method Finish(k: Kernel, vol: KernelFs.Volume, root: nat, pfile: KernelFs.File, bin: seq<byte>, ghost c: nat,
                ghost y: Sys, ghost dir: Frame, ghost header: Frame)
    returns (ghost plan: seq<Mapping>, ghost was: map<nat, Frame>)
    requires System.Valid(y) && y.current != -1 && root == y.vm.cr3 && UserOk(y.vm) && Openable(y.vm)
    requires k.Rep() && k.Live() == y.pgdir && k.slots == y.slots && k.current == y.current
    requires k.m.S() == HeadF(y.vm, dir, header)
    requires vol.Valid() && vol.machine == k.m && pfile.inode < vol.inodes.Length && |bin| == HEADER && HeadersFit(bin)
    requires Backed(vol.S(), pfile.inode, c, Segs(bin)) && SegsOk(Segs(bin))
    requires |ClearF(y.vm, root).free| >=
      2 + Need(y.vm.ent, root, ImagePages(Segs(bin))) + ImageReads(Segs(bin), |Segs(bin)|)
    requires vol.bitmap != k.pgdir && vol.bitmap != k.plink as object
    modifies k`current, k.m, k.m.mem, k.m.count, vol.bitmap, vol.inodes, pfile`offset
    ensures vol.Valid() && vol.S() == old(vol.S()) && k.Ok()
    ensures Image(PagesIn(plan), was, Stored(vol.S(), pfile.inode), Segs(bin)) && Stale(y.vm, k.m.S(), root, was)
    ensures KeptIn(plan) == ImageReads(Segs(bin), |Segs(bin)|)
    ensures Enabled(y, Op.Exec(dir, header, plan)) && k.Y() == Step(y, Op.Exec(dir, header, plan))
  {
    hide Machine.Valid, Inv, Mapped, System.Valid, Backed, SegsOk, Need, HeadF, ClearF, Linked, FreeExact, Disk.Own,
          UserOk,
          Kernel.Live, Image, Enabled, Step, Stale, Placed, HeadersFit, Segs, LoadF, Plannable, Openable, TableKeys;
    ghost var f, ino := vol.S(), pfile.inode;
    HeadWindow(y.vm, dir, header);
    NeedSame(y.vm.ent, k.m.ent, root, ImagePages(Segs(bin)));
    plan := Load(k.m, root, vol, pfile, bin, c);
    ghost var t := k.m.S();
    ImagedStep(y, dir, header, t, f, ino, Segs(bin), plan);
    ImagedParts(HeadF(y.vm, dir, header), t, root, Stored(f, ino), Segs(bin), plan, ImageReads(Segs(bin), |Segs(bin)|));
    ImagedStale(y.vm, dir, header, t, PagesIn(plan), KeptIn(plan));
    was := WasIn(HeadF(y.vm, dir, header), t, root, PagesIn(plan), KeptIn(plan));
    Resume(k, y);
  }

  /** Without the ELF magic exec is done once the header is read. */
  lemma Refused(y: Sys, dir: Frame, header: Frame)
    requires System.Valid(y) && y.current != -1 && UserOk(y.vm) && Openable(y.vm)
    ensures Enabled(y, Op.Refuse(dir, header))
    ensures Step(y, Op.Refuse(dir, header)) == y.(vm := HeadF(y.vm, dir, header))
    ensures System.Valid(y.(vm := HeadF(y.vm, dir, header)))
  {
    hide System.Valid, HeadF, Inv, Clearable, ClearF, UserOk, NewTables;
    NeedNothing(y.vm.ent, y.vm.cr3);
    assert PagesIn([]).Keys == {};
    RefuseRefines(y, dir, header);
  }

  /** The frames that exec of a loaded image has taken: two, one for each page, one for
      each missing table, and one for each block read to fill the pages. */
  ghost predicate Paid(s: Vm, t: Vm, segs: seq<Seg>) {
    && Clearable(s, s.cr3)
    && |ClearF(s, s.cr3).free| ==
         |t.free| + 2 + ImageReads(segs, |segs|) + |ImagePages(segs)| + |NewTables(s.ent, s.cr3, ImagePages(segs))|
  }

  lemma ExecPaid(y: Sys, op: Op, was: map<nat, Frame>, src: Source, segs: seq<Seg>)
    requires System.Valid(y) && Enabled(y, op) && op.Exec? && Image(PagesIn(op.plan), was, src, segs)
    requires KeptIn(op.plan) == ImageReads(segs, |segs|)
    ensures Paid(y.vm, Step(y, op).vm, segs)
  {
    hide System.Valid, Inv, ClearF, Clearable, NewTables, ImagePages, SegGood, PagesIn, KeptIn, ImageReads, Fits;
    ExecCost(y, op.dir, op.header, op.plan);
  }

  /** exec as a whole: the window of the running process becomes exactly the image
      that the file describes, in frames whose old content shows past p_filesz, and
      the system makes the step Exec: no other process notices.  A file without the
      ELF magic leaves the window empty: the step is Refuse. */
  method Execve(k: Kernel, vol: KernelFs.Volume, name: seq<byte>, ghost ino: nat, ghost c: nat)
    returns (r: int, ghost op: Op, ghost was: map<nat, Frame>)
    requires k.Ok() && k.current != -1 && vol.Valid() && vol.machine == k.m
    requires Disk.DirOk(vol.S()) && Directory.IsName(name) && Layout.Finds(vol.S(), name, ino) &&
          ino < vol.inodes.Length
    requires Loadable(vol.S(), ino, c, k.m.S())
    requires vol.bitmap != k.pgdir && vol.bitmap != k.plink as object
    modifies k`current, k.m, k.m.mem, k.m.count, k.m.link, vol.bitmap, vol.inodes
    ensures vol.Valid() && vol.S() == old(vol.S()) && k.Ok()
    ensures Enabled(old(k.Y()), op) && k.Y() == Step(old(k.Y()), op)
    ensures r == if Magic(Header(vol.S(), ino)) then 0 else -1
    ensures r == -1 ==> op.Refuse?
    ensures r == 0 ==>
      && op.Exec? && HeadersFit(Header(vol.S(), ino)) && Stale(old(k.m.S()), k.m.S(), old(k.m.cr3), was)
      && var segs := Segs(Header(vol.S(), ino));
         && Image(PagesIn(op.plan), was, Stored(vol.S(), ino), segs) && KeptIn(op.plan) == ImageReads(segs, |segs|)
         && Paid(old(k.m.S()), k.m.S(), segs)
  {
    hide Machine.Valid, Inv, System.Valid, Linked, FreeExact, Image, Disk.Own, Magic, Disk.DirOk, Kernel.Live, UserOk,
          Layout.Finds, Layout.Complete, HeadersFit, Header, Segs, SegsOk, Backed, Need, Openable, HeadF, ClearF,
          Enabled, Step,
          Stale, ImagePages, PagesIn, Paid;
    ghost var y := k.Y();
    var root, pfile, bin;
    ghost var dir, header;
    root, pfile, bin, dir, header := Begin(k, vol, name, ino, c);
    if !Magic(bin) {
      Refused(y, dir, header);
      assert k.Y() == y.(vm := k.m.S());
      return -1, Op.Refuse(dir, header), map[];
    }
    ghost var plan;
    plan, was := Finish(k, vol, root, pfile, bin, c, y, dir, header);
    op := Op.Exec(dir, header, plan);
    ExecPaid(y, op, was, Stored(vol.S(), ino), Segs(bin));
    r := 0;
  }
}
