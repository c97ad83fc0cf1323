/** create_proc of kernel/proc.c: a process comes into being with the segments of an
    image in memory, which load_img maps and then copies, and a stack page. */
module Spawn {
  import opened Words
  import opened Vm
  import opened PageTable
  import opened AddressSpace
  import opened UserPages
  import opened Kept
  import opened System
  import opened Bytes
  import opened Mm
  import opened ProcVm
  import opened Proc
  import opened ExecSpace
  import opened Filling
  import opened FillLater
  import opened Steps
  import opened ExecSteps
  import opened Elf
  import Disk
  import Exec
  import Scheduler

  type byte = Disk.byte

  /** load_img copies p_memsz bytes of a segment and does not look at p_filesz. */
  function CopiedSeg(s: Seg): Seg { s.(filesz := s.memsz) }

  function CopiedSegs(segs: seq<Seg>): (w: seq<Seg>)
    ensures |w| == |segs| && forall i :: 0 <= i < |w| ==> w[i] == CopiedSeg(segs[i])
  {
    seq(|segs|, i requires 0 <= i < |segs| => CopiedSeg(segs[i]))
  }

  /** The segment starts at a page, and the image has all the bytes that are copied. */
  predicate Copyable(image: seq<byte>, s: Seg) {
    s.kind == PT_LOAD ==> s.vaddr % 4096 == 0 && s.vaddr < 0x1_0000_0000 && s.offset + s.memsz <= |image|
  }

  /** What load_img expects of an image. */
  ghost predicate ImageOk(image: seq<byte>) {
    && |image| >= EHDR
    && (Magic(image) ==>
          && HeadersFit(image) && SegsOk(CopiedSegs(Segs(image)))
          && forall i :: 0 <= i < |Segs(image)| ==> Copyable(image, Segs(image)[i]))
  }

  /** The pages of the new process: none at all without the ELF magic. */
  ghost function BootPages(image: seq<byte>): set<nat>
    requires ImageOk(image)
  {
    if Magic(image) then ImagePages(CopiedSegs(Segs(image))) else {}
  }

  /** The new process's window: the segments as they lie in the image, each page's rest
      as its frame was, and a zeroed stack. */
  ghost predicate Boots(image: seq<byte>, pages: map<nat, Frame>, was: map<nat, Frame>)
    requires ImageOk(image)
  {
    if Magic(image) then Image(pages, was, InMemory(image), CopiedSegs(Segs(image))) else pages == map[]
  }

  /** Byte x of page v shows what the image has at position y. */
  ghost predicate ShowsAt(pages: map<nat, Frame>, v: nat, x: nat, image: seq<byte>, y: nat) {
    v in pages && y < |image| && FrameByte(pages[v], x % 4096) == image[y] as nat
  }

  /** Byte x of a segment is the image's, between p_filesz and p_memsz too. */
  lemma BootByte(image: seq<byte>, pages: map<nat, Frame>, was: map<nat, Frame>, segs: seq<Seg>, i: nat, x: nat)
    requires ImageOk(image) && Magic(image) && segs == Segs(image) && Boots(image, pages, was)
    requires i < |segs| && segs[i].kind == PT_LOAD && x < segs[i].memsz
    ensures ShowsAt(pages, FirstPage(segs[i]) + x / 4096, x, image, segs[i].offset + x)
  {
    hide FrameByte, ImagePages, SegsOk;
    var s := CopiedSegs(segs)[i];
    assert Copyable(image, segs[i]);
    assert GoodAt(pages, was, InMemory(image), s, x / 4096);
    assert At(InMemory(image), s.offset + x) == image[s.offset + x];
  }

  /** Slot, frames and image are there. */
  ghost predicate Creatable(y: Sys, image: seq<byte>) {
    && ImageOk(image) && y.slots != [] && y.vm.free != []
    && |y.vm.free| >= 1 + Need(y.vm.ent, y.vm.free[0], BootPages(image))
  }

  // ------------------------------------------------------------- load_img

  /** The frame that page k of segment s is mapped to. */
  ghost function SegFrame(t: Vm, r: nat, s: Seg, k: nat): nat { FrameOf(Get(t.ent, K0(r, FirstPage(s) + k))) }

  /** Page k of segment s is mapped in t to a frame that is still to be filled; in u it is. */
  ghost predicate Awaits(t: Vm, u: Vm, r: nat, image: seq<byte>, s: Seg, k: nat)
    requires Sized(t) && |u.mem| == |t.mem|
  {
    var f := SegFrame(t, r, s, k);
    && K0(r, FirstPage(s) + k) in t.ent && f < |t.mem| && t.role[f].Data?
    && u.mem[f] == PageOf(t.mem[f], InMemory(image), s, k)
  }

  ghost predicate Distinct(t: Vm, r: nat, s: Seg, j: nat, k: nat) { SegFrame(t, r, s, j) != SegFrame(t, r, s, k) }

  ghost function SegFrames(t: Vm, r: nat, s: Seg, lo: nat, hi: nat): set<nat> {
    set k | lo <= k < hi :: SegFrame(t, r, s, k)
  }

  /** Of the segment's first n pages those from the lo-th on are mapped and not filled yet. */
  ghost predicate Waiting(t: Vm, u: Vm, r: nat, image: seq<byte>, s: Seg, lo: nat, n: nat) {
    && Lags(t, u, SegFrames(t, r, s, lo, n))
    && (forall k: nat {:trigger Awaits(t, u, r, image, s, k)} :: lo <= k < n ==> Awaits(t, u, r, image, s, k))
    && (forall j: nat, k: nat {:trigger Distinct(t, r, s, j, k)} :: lo <= j < k < n ==> Distinct(t, r, s, j, k))
  }

  lemma WaitingStart(t: Vm, r: nat, image: seq<byte>, s: Seg)
    requires Inv(t)
    ensures Waiting(t, t, r, image, s, 0, 0)
  {
    hide Inv;
    SizedAll(t);
    LagsSelf(t);
    assert SegFrames(t, r, s, 0, 0) == {};
  }

  /** The frames of pages mapped before stay theirs. */
  lemma FrameKept(t: Vm, r: nat, v: nat, d: Frame, s: Seg, k: nat)
    requires Mappable(t, r, v, 0) && K0(r, FirstPage(s) + k) in t.ent && FirstPage(s) + k != v
    ensures K0(r, FirstPage(s) + k) in PageInF(t, r, v, d, []).ent
    ensures SegFrame(PageInF(t, r, v, d, []), r, s, k) == SegFrame(t, r, s, k)
  {
    hide Inv, Missing, K1, K2, K3, PageInF;
    var g := K0(r, FirstPage(s) + k);
    assert g in PageInF(t, r, v, d, []).ent - {K0(r, v)};
  }

  lemma WaitingKept(t: Vm, u: Vm, r: nat, image: seq<byte>, s: Seg, n: nat, m: Mapping, k: nat)
    requires Waiting(t, u, r, image, s, 0, n) && k < n && Mappable(t, r, m.v, 0) && Mappable(u, r, m.v, 0)
    requires t.free != [] && t.free[0] < |t.mem| && m.v == FirstPage(s) + n && m.kept == []
    ensures var t1, u1 := PageInF(t, r, m.v, t.mem[t.free[0]], []), MapF(u, r, m);
      && Sized(t1) && |u1.mem| == |t1.mem| && SegFrame(t1, r, s, k) == SegFrame(t, r, s, k) != t.free[0]
      && Awaits(t1, u1, r, image, s, k)
  {
    hide Inv, Missing, K0, K1, K2, K3, PageInF, PageOf, Grown, HoldKept;
    var t1, u1 := PageInF(t, r, m.v, t.mem[t.free[0]], []), MapF(u, r, m);
    SizedAll(t1);
    SizedAll(u1);
    FirstFree(t);
    assert Awaits(t, u, r, image, s, k);
    OtherPage(r, m.v, FirstPage(s) + k);
    FrameKept(t, r, m.v, t.mem[t.free[0]], s, k);
  }

  lemma NewAwaits(t: Vm, u: Vm, r: nat, image: seq<byte>, s: Seg, n: nat, m: Mapping)
    requires Mappable(t, r, m.v, 0) && Mappable(u, r, m.v, 0) && u.free == t.free && t.free != [] && t.free[0] < |t.mem|
    requires m.v == FirstPage(s) + n && m.kept == [] && m.page == PageOf(t.mem[t.free[0]], InMemory(image), s, n)
    requires |t.mem| == |u.mem|
    ensures var t1, u1 := PageInF(t, r, m.v, t.mem[t.free[0]], []), MapF(u, r, m);
      Sized(t1) && |u1.mem| == |t1.mem| && SegFrame(t1, r, s, n) == t.free[0] && Awaits(t1, u1, r, image, s, n)
  {
    hide Missing, K0, K1, K2, K3, PageInF, PageOf, Grown, HoldKept, DataKept;
    var t1 := PageInF(t, r, m.v, t.mem[t.free[0]], []);
    EntryParts(t.free[0], UWP);
    PathKeys(r, m.v);
    assert NamedAt(t1, K0(r, m.v));
    PageMem(t, r, m.v, t.mem[t.free[0]]);
    PageMem(u, r, m.v, m.page);
  }

  lemma PageMem(t: Vm, r: nat, v: nat, d: Frame)
    requires Mappable(t, r, v, 0)
    ensures |PageInF(t, r, v, d, []).mem| == |t.mem|
  {
    hide Inv, Missing, K0, K1, K2, K3, PageInF, Grown;
  }

  lemma OtherPage(r: nat, v: nat, w: nat)
    requires v != w
    ensures K0(r, v) != K0(r, w)
  {
  }

  /** One page more is mapped; its frame, the head of the free list, was nobody's. */
  lemma WaitingMore(t: Vm, u: Vm, r: nat, image: seq<byte>, s: Seg, n: nat, m: Mapping)
    requires Waiting(t, u, r, image, s, 0, n) && Mappable(t, r, FirstPage(s) + n, 0)
    requires t.free != [] && t.free[0] < |t.mem| && m.v == FirstPage(s) + n && m.kept == []
    requires m.page == PageOf(t.mem[t.free[0]], InMemory(image), s, n)
    ensures Mappable(u, r, m.v, 0)
    ensures Waiting(PageInF(t, r, m.v, t.mem[t.free[0]], []), MapF(u, r, m), r, image, s, 0, n + 1)
  {
    hide Inv, Missing, K0, K1, K2, K3, PageInF, MapF, Lags, PageOf, Grown, DataKept, Awaits, SegFrame, FirstPage;
    var f, v := t.free[0], m.v;
    LagsMap(t, u, SegFrames(t, r, s, 0, n), r, v, t.mem[f], m.page);
    var t1, u1 := PageInF(t, r, v, t.mem[f], []), MapF(u, r, m);
    MapIs(u, r, m);
    LagsParts(t, u, SegFrames(t, r, s, 0, n));
    LagsParts(t1, u1, SegFrames(t, r, s, 0, n) + {f});
    NewAwaits(t, u, r, image, s, n, m);
    forall k: nat | k < n
      ensures SegFrame(t1, r, s, k) == SegFrame(t, r, s, k) != f && Awaits(t1, u1, r, image, s, k)
    {
      WaitingKept(t, u, r, image, s, n, m, k);
    }
    assert SegFrames(t1, r, s, 0, n + 1) == SegFrames(t, r, s, 0, n) + {f};
    forall j: nat, k: nat | j < k < n + 1 ensures Distinct(t1, r, s, j, k) {
      if k < n { assert Distinct(t, r, s, j, k); }
    }
  }

  lemma MapIs(u: Vm, r: nat, m: Mapping)
    requires Mappable(u, r, m.v, 0) && m.kept == []
    ensures MapF(u, r, m) == PageInF(u, r, m.v, m.page, [])
  {
    hide PageInF;
  }

  /** The first frame in line is filled. */
  lemma WaitingFill(t: Vm, u: Vm, r: nat, image: seq<byte>, s: Seg, lo: nat, n: nat)
    requires Waiting(t, u, r, image, s, lo, n) && lo < n
    ensures var f := SegFrame(t, r, s, lo);
      && K0(r, FirstPage(s) + lo) in t.ent && f < |t.mem| == |t.role| && t.role[f].Data?
      && Waiting(FillF(t, f, PageOf(t.mem[f], InMemory(image), s, lo)), u, r, image, s, lo + 1, n)
  {
    hide Inv, PageOf, K0;
    assert Awaits(t, u, r, image, s, lo);
    var f := SegFrame(t, r, s, lo);
    var t1 := FillF(t, f, PageOf(t.mem[f], InMemory(image), s, lo));
    LagsFill(t, u, SegFrames(t, r, s, lo, n), f);
    forall k: nat | lo < k < n
      ensures Awaits(t1, u, r, image, s, k) && SegFrame(t1, r, s, k) == SegFrame(t, r, s, k) != f
    {
      assert Awaits(t, u, r, image, s, k) && Distinct(t, r, s, lo, k);
    }
    forall j: nat, k: nat | lo < j < k < n ensures Distinct(t1, r, s, j, k) { assert Distinct(t, r, s, j, k); }
    assert SegFrames(t1, r, s, lo + 1, n) == SegFrames(t, r, s, lo, n) - {f};
  }

  lemma WaitingEnd(t: Vm, u: Vm, r: nat, image: seq<byte>, s: Seg, n: nat)
    requires Waiting(t, u, r, image, s, n, n)
    ensures t == u
  {
    hide Lags;
    assert SegFrames(t, r, s, n, n) == {};
    LagsEnd(t, u);
  }

  // ------------------------------------------------------------- load_img

  /** alloc_page(0) leaves the frame as it was. */
  lemma BareFrame(t: Vm)
    requires Inv(t) && t.free != []
    ensures t.free[0] < |t.mem| && Sized(t) && ReadInF(t, t.mem[t.free[0]], []) == AllocF(t, false)
  {
    TakeFrame(t, ZeroFrame());
    TakeFrame(t, t.mem[t.free[0]]);
    assert AllocF(t, false).mem[t.free[0] := t.mem[t.free[0]]] == AllocF(t, false).mem;
  }

  /** One round of memmap. */
  method MapBare(m: Machine, r: nat, v: nat)
    requires m.Valid() && Mappable(m.S(), r, v, 0)
    modifies m, m.mem, m.count
    ensures m.Valid() && old(m.free) != [] && old(m.free)[0] < |old(m.S()).mem|
    ensures m.S() == PageInF(old(m.S()), r, v, old(m.S()).mem[old(m.free)[0]], [])
  {
    hide Machine.Valid, Inv, K0, Missing, InsertF, PageInF, AllocF, ReadInF;
    ghost var t := m.S();
    MappableFrame(t, r, v, 0);
    BareFrame(t);
    var pp := Exec.TakePage(m, 0);
    Exec.InsertParts(t, m.S(), r, Mapping(v, t.mem[t.free[0]], []));
    assert v * 4096 / 4096 == v;
    var ret := m.InsertPage(r, v * 4096, pp, UWP);
  }

  /** Segment i is under way, n of its pages are mapped: u is what the machine will be
      once they have got their content. */
  ghost predicate Copying(a: Vm, t: Vm, u: Vm, r: nat, image: seq<byte>, segs: seq<Seg>, plan: seq<Mapping>, i: nat, n: nat)
  {
    && i < |segs| && Filled(a, u, r, InMemory(image), segs, plan, i, n, 0, 0) && Waiting(t, u, r, image, segs[i], 0, n)
  }

  /** The next page of the segment with the content that it will get. */
  ghost function NextPage(t: Vm, image: seq<byte>, s: Seg, n: nat): Mapping
    requires t.free != [] && t.free[0] < |t.mem|
  {
    Mapping(FirstPage(s) + n, PageOf(t.mem[t.free[0]], InMemory(image), s, n), [])
  }

  lemma CopyingReady(a: Vm, t: Vm, u: Vm, r: nat, image: seq<byte>, segs: seq<Seg>, plan: seq<Mapping>, i: nat, n: nat)
    requires Copying(a, t, u, r, image, segs, plan, i, n) && n < PageCount(segs[i])
    ensures Mappable(t, r, FirstPage(segs[i]) + n, 0) && Mappable(u, r, FirstPage(segs[i]) + n, 0)
    ensures Roomy(a, r, plan, FirstPage(segs[i]) + n, 0) && u.free == t.free
    ensures t.free != [] && t.free[0] < |t.mem| == |u.mem| && u.mem[t.free[0]] == t.mem[t.free[0]]
  {
    hide Filled, Roomy, Awaits, Distinct, PageCount, FirstPage, SegFrames, Lags, Inv, Missing, K0;
    FilledReady(a, u, r, InMemory(image), segs, plan, i, n, 0, 0, 0);
    LagsParts(t, u, SegFrames(t, r, segs[i], 0, n));
    MappableFrame(u, r, FirstPage(segs[i]) + n, 0);
    LagsFree(t, u, SegFrames(t, r, segs[i], 0, n));
  }

  lemma CopyingMore(a: Vm, t: Vm, u: Vm, r: nat, image: seq<byte>, segs: seq<Seg>, plan: seq<Mapping>, i: nat, n: nat)
    requires Copying(a, t, u, r, image, segs, plan, i, n) && n < PageCount(segs[i])
    requires Mappable(t, r, FirstPage(segs[i]) + n, 0) && t.free != [] && t.free[0] < |t.mem|
    ensures var p := NextPage(t, image, segs[i], n);
      && Mappable(u, r, p.v, 0)
      && Copying(a, PageInF(t, r, p.v, t.mem[t.free[0]], []), MapF(u, r, p), r, image, segs, plan + [p], i, n + 1)
  {
    hide Filled, Roomy, Waiting, PageCount, FirstPage, PageOf, PageGood, PageInF, Mappable;
    var p := NextPage(t, image, segs[i], n);
    CopyingReady(a, t, u, r, image, segs, plan, i, n);
    PageOfGood(t.mem[t.free[0]], InMemory(image), segs[i], n);
    WaitingMore(t, u, r, image, segs[i], n, p);
    FilledMore(a, u, r, InMemory(image), segs, plan, i, n, 0, 0, p);
  }

  /** One round of memmap, seen from the whole. */
  method MapNext(m: Machine, r: nat, v: nat, ghost a: Vm, ghost u: Vm, ghost image: seq<byte>, ghost segs: seq<Seg>,
                 ghost i: nat, ghost n: nat, ghost before: seq<Mapping>)
    returns (ghost plan: seq<Mapping>, ghost now: Vm)
    requires m.Valid() && i < |segs| && Copying(a, m.S(), u, r, image, segs, before, i, n)
    requires n < PageCount(segs[i]) && v == FirstPage(segs[i]) + n
    modifies m, m.mem, m.count
    ensures m.Valid() && Copying(a, m.S(), now, r, image, segs, plan, i, n + 1)
  {
    hide Machine.Valid, Inv, Filled, Copying, PageInF, MapF, Mappable, FirstPage, PageCount, Waiting, PageOf, K0, Missing,
          Roomy, Grown, DataKept, HoldKept;
    ghost var t := m.S();
    CopyingReady(a, t, u, r, image, segs, before, i, n);
    CopyingMore(a, t, u, r, image, segs, before, i, n);
    ghost var p := NextPage(t, image, segs[i], n);
    MapBare(m, r, v);
    now := MapF(u, r, p);
    plan := before + [p];
  }

  /** memmap: the pages of a segment, in frames that keep what they held. */
  method Memmap(m: Machine, r: nat, vaddr: nat, memsz: nat, ghost a: Vm, ghost image: seq<byte>, ghost segs: seq<Seg>,
                ghost i: nat, ghost before: seq<Mapping>)
    returns (ghost plan: seq<Mapping>, ghost u: Vm)
    requires m.Valid() && i < |segs| && Filled(a, m.S(), r, InMemory(image), segs, before, i, 0, 0, 0)
    requires segs[i].kind == PT_LOAD && vaddr == segs[i].vaddr && memsz == segs[i].memsz
    modifies m, m.mem, m.count
    ensures m.Valid() && Copying(a, m.S(), u, r, image, segs, plan, i, PageCount(segs[i]))
  {
    hide Machine.Valid, Machine.S, Inv, Filled, Copying, FirstPage, PageCount, Waiting;
    m.ValidInv();
    WaitingStart(m.S(), r, image, segs[i]);
    StartCopying(a, m.S(), r, image, segs, before, i);
    plan, u := before, m.S();
    var start := vaddr % 0x1_0000_0000 / 4096 * 4096;
    var sz := (memsz + 4096 - 1) / 4096 * 4096;
    SegExtent(segs[i]);
    var j := 0;
    while j < sz
      invariant j % 4096 == 0 && j / 4096 <= PageCount(segs[i]) && m.Valid()
      invariant Copying(a, m.S(), u, r, image, segs, plan, i, j / 4096)
    {
      plan, u := MapNext(m, r, (start + j) / 4096, a, u, image, segs, i, j / 4096, plan);
      j := j + 4096;
    }
  }

  lemma StartCopying(a: Vm, t: Vm, r: nat, image: seq<byte>, segs: seq<Seg>, plan: seq<Mapping>, i: nat)
    requires i < |segs| && Filled(a, t, r, InMemory(image), segs, plan, i, 0, 0, 0)
    requires Waiting(t, t, r, image, segs[i], 0, 0)
    ensures Copying(a, t, t, r, image, segs, plan, i, 0)
  {
    hide Filled, Waiting;
  }

  lemma SegExtent(s: Seg)
    requires s.kind == PT_LOAD
    ensures PageCount(s) * 4096 == (s.memsz + 4096 - 1) / 4096 * 4096
    ensures FirstPage(s) * 4096 == s.vaddr % 0x1_0000_0000 / 4096 * 4096
  {
  }

  /** Where the CPU finds page k of the segment. */
  lemma FoundAt(t: Vm, u: Vm, r: nat, image: seq<byte>, s: Seg, lo: nat, n: nat)
    requires Waiting(t, u, r, image, s, lo, n) && lo < n && t.tlb == map[] && t.cr3 == r && Space(t, r)
    requires Lower(FirstPage(s) + lo)
    ensures r < |t.mem| && Lookup(t, FirstPage(s) + lo) / 4096 == SegFrame(t, r, s, lo)
  {
    hide Inv, Lookup, Lags;
    LagsParts(t, u, SegFrames(t, r, s, lo, n));
    LookupAt(t, FirstPage(s) + lo);
  }

  lemma ImageBytes(image: seq<byte>, s: Seg, k: nat)
    requires 4096 * k <= s.filesz && s.offset + s.filesz <= |image|
    ensures FileBytes(InMemory(image), s, k) ==
      image[s.offset + 4096 * k..s.offset + 4096 * k + Disk.Min(4096, s.filesz - 4096 * k)]
  {
    var d := image[s.offset + 4096 * k..s.offset + 4096 * k + Disk.Min(4096, s.filesz - 4096 * k)];
    assert forall o :: 0 <= o < |d| ==> d[o] == At(InMemory(image), s.offset + 4096 * k + o);
  }

  /** One page of the copy. */
  method CopyNext(m: Machine, r: nat, va: nat, image: seq<byte>, s: Seg, k: nat, ghost u: Vm, ghost n: nat)
    requires m.Valid() && Waiting(m.S(), u, r, image, s, k, n) && k < n && m.tlb == map[] && m.cr3 == r && Space(m.S(), r)
    requires va / 4096 == FirstPage(s) + k && Lower(va / 4096)
    requires 4096 * k <= s.filesz && s.offset + s.filesz <= |image|
    modifies m.mem
    ensures m.Valid() && Waiting(m.S(), u, r, image, s, k + 1, n) && Space(m.S(), r)
  {
    hide Machine.Valid, Inv, Waiting, Lookup, K0, WithBytes, FileBytes;
    ghost var t := m.S();
    WaitingFill(t, u, r, image, s, k, n);
    FoundAt(t, u, r, image, s, k, n);
    ImageBytes(image, s, k);
    var w := Translate(m, va / 4096);
    var from := s.offset + 4096 * k;
    ghost var d := Exec.CopyToFrame(m, w / 4096, image[from..from + Disk.Min(4096, s.filesz - 4096 * k)]);
  }

  /** memcpy of a segment, through the running address space, page by page. */
  method Memcpy(m: Machine, r: nat, vaddr: nat, image: seq<byte>, s: Seg, ghost u: Vm)
    requires m.Valid() && Waiting(m.S(), u, r, image, s, 0, PageCount(s)) && m.tlb == map[] && m.cr3 == r && Space(m.S(), r)
    requires s.kind == PT_LOAD && SegOk(s) && vaddr == s.vaddr && vaddr % 4096 == 0 && vaddr < 0x1_0000_0000
    requires s.filesz == s.memsz && s.offset + s.filesz <= |image|
    modifies m.mem
    ensures m.Valid() && m.S() == u
  {
    hide Machine.Valid, Inv, Waiting, Lower;
    SegExtent(s);
    var k := 0;
    while 4096 * k < s.memsz
      invariant k <= PageCount(s) && m.Valid() && Waiting(m.S(), u, r, image, s, k, PageCount(s)) && Space(m.S(), r)
    {
      InWindowLower(FirstPage(s) + k);
      CopyNext(m, r, vaddr + 4096 * k, image, s, k, u, PageCount(s));
      k := k + 1;
    }
    WaitingEnd(m.S(), u, r, image, s, PageCount(s));
  }

  lemma InWindowLower(v: nat)
    requires InWindow(v)
    ensures Lower(v)
  {
    WindowDigits(v);
  }

  /** The CPU runs in the new address space. */
  lemma CopyingCpu(a: Vm, t: Vm, u: Vm, r: nat, image: seq<byte>, segs: seq<Seg>, plan: seq<Mapping>, i: nat, n: nat)
    requires Copying(a, t, u, r, image, segs, plan, i, n) && a.tlb == map[] && a.cr3 == r
    ensures t.tlb == map[] && t.cr3 == r && Space(t, r)
  {
    hide Inv, PageIs, ForeignAt, Need, Loaded, FreeKept, TableKeys, PathTables, UserOk;
  }

  lemma FilledSegs(a: Vm, t: Vm, r: nat, image: seq<byte>, segs: seq<Seg>, plan: seq<Mapping>, i: nat)
    requires Filled(a, t, r, InMemory(image), segs, plan, i, 0, 0, 0) && i < |segs|
    ensures SegOk(segs[i])
  {
  }

  lemma CopyingDone(a: Vm, u: Vm, r: nat, image: seq<byte>, segs: seq<Seg>, plan: seq<Mapping>, i: nat, t: Vm)
    requires i < |segs| && Copying(a, t, u, r, image, segs, plan, i, PageCount(segs[i]))
    ensures Filled(a, u, r, InMemory(image), segs, plan, i, PageCount(segs[i]), 0, 0)
    ensures Waiting(t, u, r, image, segs[i], 0, PageCount(segs[i]))
  {
    hide Filled, Waiting;
  }

  /** One program header of load_img. */
  method LoadSegment(m: Machine, r: nat, image: seq<byte>, segs: seq<Seg>, i: nat, ghost a: Vm, ghost before: seq<Mapping>)
    returns (ghost plan: seq<Mapping>)
    requires m.Valid() && i < |segs| && Filled(a, m.S(), r, InMemory(image), segs, before, i, 0, 0, 0)
    requires a.tlb == map[] && a.cr3 == r && Copyable(image, segs[i]) && segs[i].filesz == segs[i].memsz
    modifies m, m.mem, m.count
    ensures m.Valid() && Filled(a, m.S(), r, InMemory(image), segs, plan, i + 1, 0, 0, 0)
  {
    hide Machine.Valid, Inv, Filled, Copying, Waiting, PageCount, SegOk;
    plan := before;
    if segs[i].kind == PT_LOAD {
      FilledSegs(a, m.S(), r, image, segs, plan, i);
      ghost var u;
      plan, u := Memmap(m, r, segs[i].vaddr, segs[i].memsz, a, image, segs, i, plan);
      CopyingCpu(a, m.S(), u, r, image, segs, plan, i, PageCount(segs[i]));
      CopyingDone(a, u, r, image, segs, plan, i, m.S());
      Memcpy(m, r, segs[i].vaddr, image, segs[i], u);
    } else {
      NoPages(segs[i]);
    }
    FilledNext(a, m.S(), r, InMemory(image), segs, plan, i, 0, 0);
  }

  lemma NoPages(s: Seg)
    requires s.kind != PT_LOAD
    ensures PageCount(s) == 0
  {
  }

  /** load_img: all segments and the stack page; nothing without the ELF magic. */
  method LoadImg(m: Machine, r: nat, image: seq<byte>) returns (ghost plan: seq<Mapping>, ghost was: map<nat, Frame>)
    requires m.Valid() && Mapped(m.S(), m.S(), r, map[]) && m.tlb == map[] && m.cr3 == r
    requires ImageOk(image) && |m.free| >= Need(m.ent, r, BootPages(image))
    modifies m, m.mem, m.count
    ensures m.Valid() && Plannable(old(m.S()), r, plan) && m.S() == LoadF(old(m.S()), r, plan)
    ensures Boots(image, PagesIn(plan), was) && KeptIn(plan) == 0
  {
    hide Machine.Valid, Inv, Filled, Mapped, Need, Plannable, LoadF, PagesIn, KeptIn, Image, SegsOk, Le, HeadersFit, Segs,
          WasIn, Copyable, ImagePages;
    ghost var a := m.S();
    plan, was := [], map[];
    if !Magic(image) {
      PlanNothing(a, r);
      return;
    }
    var segs := CopiedSegs(Segs(image));
    FilledStart(a, r, InMemory(image), segs, 0);
    var i := 0;
    while i < |segs|
      invariant i <= |segs| && m.Valid() && Filled(a, m.S(), r, InMemory(image), segs, plan, i, 0, 0, 0)
    {
      CopiedCopyable(image, Segs(image)[i]);
      plan := LoadSegment(m, r, image, segs, i, a, plan);
      i := i + 1;
    }
    Exec.MapStack(m, r, a, InMemory(image), segs, plan, 0);
    plan := plan + [StackPage()];
    ImagedParts(a, m.S(), r, InMemory(image), segs, plan, 0);
    was := WasIn(a, m.S(), r, PagesIn(plan), KeptIn(plan));
  }

  lemma CopiedCopyable(image: seq<byte>, s: Seg)
    requires Copyable(image, s)
    ensures Copyable(image, CopiedSeg(s)) && CopiedSeg(s).filesz == CopiedSeg(s).memsz
  {
  }

  // ------------------------------------------------------------ create_proc

  /** alloc_vm, and cr3 loaded with the new PML4. */
  method NewSpace(m: Machine) returns (c: nat)
    requires m.Valid() && m.free != []
    modifies m, m.mem, m.count
    ensures m.Valid() && Inv(old(m.S())) && c == old(m.free)[0] && m.S() == NewSpaceF(old(m.S()))
  {
    hide FreeExact, Linked, Inv, AllocSpaceF;
    m.ValidInv();
    var pgdir := AllocVm(m);
    c := pgdir;
    LoadCr3(m, c);
  }

  method LoadCr3(m: Machine, c: nat)
    requires m.Valid()
    modifies m`tlb, m`cr3
    ensures m.Valid() && m.S() == old(m.S()).(tlb := map[], cr3 := c)
  {
    hide FreeExact, Linked, Inv;
    ghost var t := m.S();
    TablesSame(t, t.(tlb := map[], cr3 := c));
    m.tlb := map[];
    m.cr3 := c;
    assert m.S() == t.(tlb := map[], cr3 := c);
  }

  lemma NewSpaceReady(s: Vm, vs: set<nat>)
    requires UserOk(s) && s.free != [] && |s.free| >= 1 + Need(s.ent, s.free[0], vs)
    ensures Inv(s) && Mapped(NewSpaceF(s), NewSpaceF(s), s.free[0], map[])
    ensures |NewSpaceF(s).free| >= Need(NewSpaceF(s).ent, s.free[0], vs)
  {
    hide Need, NewSpaceF, Mapped;
    MappedFresh(s);
    assert TableKeys(NewSpaceF(s).ent, s.free[0]) == TableKeys(s.ent, s.free[0]);
    NeedSame(s.ent, NewSpaceF(s).ent, s.free[0], vs);
  }

  /** The new address space is filled and becomes that of slot p, which is made runnable. */
  method SpawnInto(k: Kernel, p: nat, image: seq<byte>) returns (ghost plan: seq<Mapping>, ghost was: map<nat, Frame>)
    requires k.Slotted() && k.Apart() && p < 1024 && k.status[p] == Scheduler.Stop
    requires k.m.Valid() && UserOk(k.m.S()) && k.m.free != [] && ImageOk(image)
    requires |k.m.free| >= 1 + Need(k.m.ent, k.m.free[0], BootPages(image))
    modifies k.status, k.pgdir, k.m, k.m.mem, k.m.count
    ensures k.Slotted() && k.m.Valid() && Inv(old(k.m.S())) && Boots(image, PagesIn(plan), was) && KeptIn(plan) == 0
    ensures var c, a := old(k.m.free)[0], NewSpaceF(old(k.m.S()));
      && Plannable(a, c, plan) && k.m.S() == LoadF(a, c, plan) && k.Live() == old(k.Live())[p := c]
    ensures Turns(old(k.status[..]), p, Scheduler.Runnable, k.status[..])
  {
    hide Inv, Linked, Machine.Valid, Kernel.Live, NewSpaceF, Plannable, LoadF, Kernel.Slotted, Mapped, Need, Boots, UserOk,
          ImageOk, BootPages;
    NewSpaceReady(k.m.S(), BootPages(image));
    var c := NewSpace(k.m);
    plan, was := LoadImg(k.m, c, image);
    k.Publish(p, c);
  }

  /** The step, spelled out. */
  lemma SpawnIs(y: Sys, plan: seq<Mapping>)
    requires System.Valid(y) && y.slots != [] && y.vm.free != [] && Inv(y.vm)
    requires Plannable(NewSpaceF(y.vm), y.vm.free[0], plan)
    ensures var a, c := NewSpaceF(y.vm), y.vm.free[0];
      && Enabled(y, Op.Spawn(plan)) && System.Valid(Step(y, Op.Spawn(plan)))
      && LoadF(a, c, plan).tlb == map[] && LoadF(a, c, plan).cr3 == c
      && Step(y, Op.Spawn(plan)) == Sys(LoadF(a, c, plan), y.pgdir[y.slots[0] := c], y.slots[1..], y.slots[0])
  {
    hide System.Valid, LoadF, NewSpaceF, Inv, Need, Fits, PagesIn, Mapped;
    var a, c := NewSpaceF(y.vm), y.vm.free[0];
    assert TableKeys(a.ent, c) == TableKeys(y.vm.ent, c);
    NeedSame(y.vm.ent, a.ent, c, PagesIn(plan).Keys);
    Exec.PlacedRest(a, LoadF(a, c, plan), c, PagesIn(plan), KeptIn(plan));
    SpawnRefines(y, plan);
  }

  /** The frames of a new process: its PML4, one for each page, PDPT, PD, and a PT for each
      2 MB region. */
  ghost function BootCost(image: seq<byte>): nat
    requires ImageOk(image)
  {
    var pages := BootPages(image);
    1 + |pages| + if pages == {} then 0 else 2 + |Regions2(pages)|
  }

  lemma SpawnPaid(y: Sys, image: seq<byte>, plan: seq<Mapping>, was: map<nat, Frame>)
    requires System.Valid(y) && Enabled(y, Op.Spawn(plan)) && ImageOk(image)
    requires Boots(image, PagesIn(plan), was) && KeptIn(plan) == 0
    ensures |y.vm.free| == |Step(y, Op.Spawn(plan)).vm.free| + BootCost(image)
  {
    hide System.Valid, Inv, NewTables, ImagePages, SegGood, PagesIn, KeptIn, Fits, ImageOk, Segs, Regions2;
    SpawnCost(y, plan);
  }

  /** create_proc: the process in the first free slot runs, its window the image. */
  method CreateProc(k: Kernel, image: seq<byte>) returns (p: nat, ghost op: Op, ghost was: map<nat, Frame>)
    requires k.Ok() && Creatable(k.Y(), image)
    modifies k`procHead, k`slots, k`current, k.status, k.pgdir, k.plink, k.m, k.m.mem, k.m.count
    ensures k.Ok() && p == old(k.slots)[0] && k.current == p
    ensures op.Spawn? && Boots(image, PagesIn(op.plan), was) && KeptIn(op.plan) == 0
    ensures Turns(old(k.status[..]), p, Scheduler.Runnable, k.status[..])
    ensures Enabled(old(k.Y()), op) && k.Y() == Step(old(k.Y()), op)
    ensures |old(k.m.free)| == |k.m.free| + BootCost(image)
  {
    hide BootCost, Inv, FreeExact, System.Valid, Linked, Machine.Valid, Enabled, Step, Kernel.Live, Kernel.Slotted, NewSpaceF, LoadF,
          Plannable, Boots, ImageOk, UserOk, Need, BootPages;
    ghost var y := k.Y();
    Exec.ValidParts(y);
    k.SlotReady();
    p := k.AllocProc();
    ghost var plan;
    plan, was := SpawnInto(k, p, image);
    k.current := p;
    op := Op.Spawn(plan);
    SpawnIs(y, plan);
    assert k.Y() == Step(y, op);
    SpawnPaid(y, image, plan, was);
  }
}
