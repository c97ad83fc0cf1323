/** Physical memory, the frame allocator and the page-table routines of
    kernel/mm.c, in place.  A frame pointer (`struct page *`) is the frame's
    number, NULL is -1. */
module Mm {
  import opened Words
  import opened Vm
  import opened PageTable

  const NULL: int := -1

  ghost function Head(s: seq<nat>): int { if s == [] then NULL else s[0] }

  ghost predicate LinkAt(link: seq<int>, free: seq<nat>, i: nat)
    requires i < |free|
  {
    free[i] < |link| && link[free[i]] == if i + 1 < |free| then free[i + 1] else NULL
  }

  /** phead and the links spell out the free list. */
  ghost predicate Linked(link: seq<int>, phead: int, free: seq<nat>) {
    && phead == Head(free)
    && forall i {:trigger LinkAt(link, free, i)} :: 0 <= i < |free| ==> LinkAt(link, free, i)
  }

  lemma LinkedPop(link: seq<int>, phead: int, free: seq<nat>)
    requires Linked(link, phead, free) && free != []
    ensures free[0] < |link| && Linked(link, link[free[0]], free[1..])
  {
    assert LinkAt(link, free, 0);
    var t := free[1..];
    forall i | 0 <= i < |t| ensures LinkAt(link, t, i) { assert LinkAt(link, free, i + 1); }
  }

  lemma LinkedPush(link: seq<int>, phead: int, free: seq<nat>, p: nat)
    requires Linked(link, phead, free) && p < |link| && p !in free
    ensures Linked(link[p := phead], p, [p] + free)
  {
    var l, t := link[p := phead], [p] + free;
    forall i | 0 <= i < |t| ensures LinkAt(l, t, i) {
      if i > 0 { assert LinkAt(link, free, i - 1) && free[i - 1] in free; }
    }
  }

  lemma NotFree(count: seq<int>, free: seq<nat>, f: nat)
    requires FreeExact(count, free) && f < |count| && count[f] >= 1
    ensures f !in free
  {
  }

  function Range(lo: nat, hi: nat): (s: seq<nat>)
    requires lo <= hi
    ensures |s| == hi - lo && forall i :: 0 <= i < |s| ==> s[i] == lo + i
  {
    seq(hi - lo, i => lo + i)
  }

  lemma RangeDown(lo: nat, hi: nat, rest: seq<nat>)
    requires lo < hi
    ensures Range(lo, hi) + rest == [lo] + (Range(lo + 1, hi) + rest)
  {
  }

  lemma NotInRest(i: nat, lo: nat, hi: nat, chain: seq<nat>)
    requires lo <= i < hi
    requires forall j :: 0 <= j < |chain| ==> chain[j] < lo || hi <= chain[j]
    ensures i !in Range(i + 1, hi) + chain
  {
  }

  /** Frames that init_page puts on the free list: [1, 8) and [9, 160), that is
      below the trampoline page and up to 640 KB, and everything from kused on. */
  predicate Usable(f: nat, kused: nat) { 1 <= f < 8 || 9 <= f < 160 || kused <= f }

  function BootList(kused: nat, n: nat): seq<nat>
    requires kused <= n
  {
    Range(9, 160) + (Range(1, 8) + Range(kused, n))
  }

  lemma BootExact(count: seq<int>, kused: nat)
    requires 160 <= kused <= |count|
    requires forall f :: 0 <= f < |count| ==> count[f] == if Usable(f, kused) then 0 else 1
    ensures FreeExact(count, BootList(kused, |count|))
  {
    var l := BootList(kused, |count|);
    forall f | 0 <= f < |count| && count[f] == 0 ensures f in l {
      if f < 8 { assert l[151 + (f - 1)] == f; }
      else if f < 160 { assert l[f - 9] == f; }
      else { assert l[158 + (f - kused)] == f; }
    }
  }

  ghost function BootRoles(count: seq<int>): (r: seq<Role>)
    ensures |r| == |count|
    ensures forall f :: 0 <= f < |count| ==> r[f] == if count[f] == 0 then Free else Data
  {
    seq(|count|, f requires 0 <= f < |count| => if count[f] == 0 then Free else Data)
  }

  /** Without address spaces the kernel holds every reference. */
  lemma BootInv(s: Vm)
    requires Sized(s) && FreeExact(s.count, s.free) && s.ent == map[] && s.hold == s.count
    requires forall f :: 0 <= f < |s.mem| ==> s.role[f] == if s.count[f] == 0 then Free else Data
    ensures Inv(s)
  {
    forall f | 0 <= f < |s.mem| ensures CountAt(s, f) { assert Refs(s.ent, f) == {}; }
  }

  lemma EmptyList(link: seq<int>, phead: int, free: seq<nat>)
    requires Linked(link, phead, free)
    ensures phead == NULL <==> free == []
    ensures free != [] ==> phead == free[0]
  {
  }

  lemma FreeHead(count: seq<int>, free: seq<nat>)
    requires FreeExact(count, free) && free != []
    ensures free[0] < |count|
  {
  }

  class Machine {
    const mem: array<Frame>
    const count: array<int>
    const link: array<int>
    var phead: int
    /** The kernel's own PML4; only its upper half is in use. */
    const kpgdir: Frame
    var tlb: map<nat, nat>
    var cr3: nat

    ghost var free: seq<nat>
    ghost var ent: map<Key, nat>
    ghost var role: seq<Role>
    ghost var hold: seq<int>

    /** The machine as a value. */
    ghost function S(): Vm
      reads this, mem, count
    {
      Vm(mem[..], count[..], free, ent, role, hold, kpgdir[256..], tlb, cr3)
    }

    /** The arrays fit together and the free list is what the links say. */
    ghost predicate Rep()
      reads this, mem, count, link
    {
      && count != link && link.Length == mem.Length
      && Sized(S()) && FreeExact(count[..], free) && Linked(link[..], phead, free)
      && (forall i :: 0 <= i < 256 ==> kpgdir[i] == 0)
    }

    ghost predicate Valid()
      reads this, mem, count, link
    {
      Rep() && Inv(S())
    }

    lemma ValidInv()
      requires Valid()
      ensures Inv(S())
    {
    }

    /** init_mem: the page array is cleared memory, the frames hold anything. */
    constructor (mem: array<Frame>, kpgdir: Frame, kused: nat)
      requires 160 <= kused <= mem.Length
      requires forall i :: 0 <= i < 256 ==> kpgdir[i] == 0
      ensures Valid() && this.mem == mem && this.kpgdir == kpgdir && ent == map[] && tlb == map[]
      ensures fresh(this) && fresh(count) && fresh(link)
      ensures free == Range(9, 160) + (Range(1, 8) + Range(kused, mem.Length)) && hold == count[..]
      ensures forall f :: 0 <= f < mem.Length ==> count[f] == if f == 0 || f == 8 || 160 <= f < kused then 1 else 0
    {
      this.mem, this.kpgdir := mem, kpgdir;
      count := new int[mem.Length](i => 0);
      link := new int[mem.Length](i => NULL);
      phead, tlb, cr3 := NULL, map[], 0;
      free, ent, role, hold := [], map[], [], [];
      new;
      InitPage(kused);
    }

    /** pages[i].link = q; count = 0 */
    method Push(i: nat, q: int, ghost rest: seq<nat>)
      requires i < link.Length && count != link && count.Length == link.Length
      requires Linked(link[..], q, rest) && i !in rest
      modifies count, link
      ensures Linked(link[..], i, [i] + rest)
      ensures forall f :: 0 <= f < count.Length ==> count[f] == if f == i then 0 else old(count[f])
    {
      LinkedPush(link[..], q, rest, i);
      link[i] := q;
      assert link[..] == old(link[..])[i := q];
      count[i] := 0;
    }

    /** One of init_page's loops: put the frames hi-1 down to lo on the list. */
    method Thread(lo: nat, hi: nat, p: int, ghost chain: seq<nat>) returns (q: int)
      requires lo <= hi <= link.Length && count != link && count.Length == link.Length
      requires Linked(link[..], p, chain)
      requires forall i :: 0 <= i < |chain| ==> chain[i] < lo || hi <= chain[i]
      modifies count, link
      ensures Linked(link[..], q, Range(lo, hi) + chain)
      ensures forall f :: 0 <= f < count.Length ==>
        count[f] == if lo <= f < hi then 0 else old(count[f])
    {
      hide Linked;
      q := p;
      var i := hi - 1;
      assert Range(hi, hi) + chain == chain;
      while i >= lo
        invariant lo - 1 <= i < hi
        invariant Linked(link[..], q, Range(i + 1, hi) + chain)
        invariant forall f :: 0 <= f < count.Length ==>
          count[f] == if i < f < hi then 0 else old(count[f])
      {
        RangeDown(i, hi, chain);
        NotInRest(i, lo, hi, chain);
        Push(i, q, Range(i + 1, hi) + chain);
        q := i;
        i := i - 1;
      }
    }

    /** init_page: reserve every frame, then free the usable ones. */
    method InitPage(kused: nat)
      requires count != link && count.Length == link.Length == mem.Length
      requires 160 <= kused <= mem.Length
      requires forall f :: 0 <= f < count.Length ==> count[f] == 0
      requires forall i :: 0 <= i < 256 ==> kpgdir[i] == 0
      modifies this`phead, this`free, this`ent, this`role, this`hold, count, link
      ensures Valid() && ent == map[] && free == BootList(kused, mem.Length)
      ensures forall f :: 0 <= f < mem.Length ==>
        count[f] == hold[f] == if Usable(f, kused) then 0 else 1
      ensures tlb == old(tlb) && cr3 == old(cr3)
    {
      for i := 0 to count.Length
        invariant forall f :: 0 <= f < count.Length ==> count[f] == if f < i then 1 else 0
      {
        count[i] := count[i] + 1;
        link[i] := NULL;
      }
      var p := Thread(kused, count.Length, NULL, []);
      p := Thread(1, 0x8000 / 4096, p, Range(kused, count.Length) + []);
      p := Thread(0x8000 / 4096 + 1, 0xA0000 / 4096, p, Range(1, 8) + (Range(kused, count.Length) + []));
      phead := p;
      assert Range(kused, count.Length) + [] == Range(kused, count.Length);
      free := BootList(kused, count.Length);
      ent := map[];
      role := BootRoles(count[..]);
      hold := count[..];
      BootExact(count[..], kused);
      BootInv(S());
    }

    /** alloc_page */
    method AllocPage(flags: nat) returns (p: int)
      requires Rep()
      modifies this`phead, this`free, this`role, this`hold, mem, count
      ensures Rep()
      ensures old(free) == [] ==> p == NULL && S() == old(S())
      ensures old(free) != [] ==> p == old(free)[0] && S() == AllocF(old(S()), flags % 2 == 1)
      ensures old(free) != [] ==> free == old(free)[1..] && count[..] == old(count[..])[p := old(count[p]) + 1]
    {
      hide FreeExact, Linked;
      p := NULL;
      EmptyList(link[..], phead, free);
      if phead != NULL {
        FreeHead(count[..], free);
        p := phead;
        LinkedPop(link[..], phead, free);
        phead := link[p];
        if flags % 2 == 1 {
          mem[p] := ZeroFrame();
        }
        count[p] := count[p] + 1;
        ghost var f := free[0];
        AllocExact(old(count[..]), free);
        assert count[..] == old(count[..])[f := old(count[..])[f] + 1];
        role := role[f := Data];
        hold := hold[f := hold[f] + 1];
        free := free[1..];
        assert S() == AllocF(old(S()), flags % 2 == 1);
      }
    }

    /** free_page */
    method FreePage(p: int)
      requires Rep() && (p == NULL || (0 <= p < mem.Length && count[p] >= 1))
      modifies this`phead, this`free, this`role, this`hold, count, link
      ensures Rep()
      ensures p == NULL ==> S() == old(S())
      ensures p != NULL ==> S() == FreeF(old(S()), p)
      ensures p != NULL ==>
        && count[..] == old(count[..])[p := old(count[p]) - 1]
        && free == if old(count[p]) == 1 then [p] + old(free) else old(free)
    {
      hide FreeExact, Linked;
      if p == NULL { return; }
      FreeingExact(count[..], free, p);
      NotFree(count[..], free, p);
      count[p] := count[p] - 1;
      hold := hold[p := hold[p] - 1];
      assert count[..] == old(count[..])[p := old(count[..])[p] - 1];
      if count[p] == 0 {
        LinkedPush(link[..], phead, free, p);
        link[p] := phead;
        assert link[..] == old(link[..])[p := phead];
        phead := p;
        role := role[p := Free];
        free := [p] + free;
      }
      assert S() == FreeF(old(S()), p);
    }

    /** memcpy into a frame that is not a table. */
    method FillFrame(p: nat, d: Frame)
      requires Valid() && p < mem.Length && role[p].Data?
      modifies mem
      ensures Valid() && S() == FillF(old(S()), p, d)
    {
      hide FreeExact, Linked, Inv;
      ghost var s := S();
      FillInv(s, p, d);
      mem[p] := d;
      assert S() == FillF(s, p, d);
    }

    /** alloc_page(1) and the store of its address, as each level of the walk does. */
    method AddTable(t: nat, i: nat, ghost k: Key) returns (p: nat)
      requires Valid() && k !in ent && 1 <= k.level < 4 && Parent(k) in ent && free != []
      requires k.level == 3 ==> k.p < 256
      requires NamedAt(S(), Parent(k)) && t == FrameOf(ent[Parent(k)]) && i == Slot(k)
      modifies this, mem, count
      ensures Valid() && S() == EnsureF(old(S()), k)
      ensures p < mem.Length && k in ent && FrameOf(ent[k]) == p && ent[k] == Entry(p, UWP)
    {
      hide Linked, FreeExact, RolesOk, CountsExact, Closed, TablesStored, KernelShared, EnsureF;
      ghost var s := S();
      AllocInv(s, true);
      EnsureIs(s, k);
      p := AllocPage(1);
      mem[t] := mem[t][i := Entry(p, UWP)];
      EntryParts(p, UWP);
      NewTable(s, k);
      ent := ent[k := Entry(p, UWP)];
      role := role[p := Table(k)];
      hold := hold[p := hold[p] - 1];
      assert S() == NewTableF(s, k);
    }

    /** The word at slot i of table t, and what the invariant says about it. */
    method ReadEntry(t: nat, i: nat, ghost k: Key) returns (w: nat)
      requires Valid() && k.level < 4 && Parent(k) in ent && i == Slot(k)
      requires k.level == 3 ==> k.p < 256
      requires NamedAt(S(), Parent(k)) && t == FrameOf(ent[Parent(k)])
      ensures w == mem[t][i] == Get(ent, k) && (Present(w) <==> k in ent)
      ensures k in ent ==> NamedAt(S(), k)
    {
      w := mem[t][i];
      ChildOfParent(k);
      assert StoredAt(S(), Parent(k), i);
      assert k in ent ==> NamedAt(S(), k);
    }

    /** walk_dir: the lower two levels, below the PD in frame pd. */
    method WalkDir(pd: nat, va: nat, create: bool, ghost r: nat) returns (ret: int, t: nat, i: nat)
      requires Valid() && Lower(va / 4096) && K2(r, va / 4096) in ent
      requires pd == FrameOf(ent[K2(r, va / 4096)])
      requires create && K1(r, va / 4096) !in ent ==> free != []
      modifies this, mem, count
      ensures Valid() && S() == if create then EnsureF(old(S()), K1(r, va / 4096)) else old(S())
      ensures ret == 0 <==> K1(r, va / 4096) in ent
      ensures ret == 0 || ret == -1
      ensures ret == 0 ==> t == FrameOf(ent[K1(r, va / 4096)]) && i == va / 4096 % 512
    {
      ghost var v := va / 4096;
      Ancestors(r, v);
      ShiftsAreDigits(va);
      UpIsDiv(v);
      var pgdindex := va / 0x20_0000 % 512;
      var pteindex := va / 0x1000 % 512;
      t, i := 0, pteindex;
      assert NamedAt(S(), K2(r, v));
      var w := ReadEntry(pd, pgdindex, K1(r, v));
      if Present(w) {
        t := FrameOf(w);
        return 0, t, i;
      }
      if create {
        t := AddTable(pd, pgdindex, K1(r, v));
        return 0, t, i;
      }
      return -1, t, i;
    }

    /** walk_page: the location (t, i) of page va's leaf word in space pgdir. */
    method WalkPage(pgdir: nat, va: nat, create: bool) returns (ret: int, t: nat, i: nat)
      requires Valid() && Space(S(), pgdir) && Lower(va / 4096)
      requires create ==> |free| >= Missing(ent, pgdir, va / 4096)
      modifies this, mem, count
      ensures Valid()
      ensures S() == if create then WalkCreateF(old(S()), pgdir, va / 4096) else old(S())
      ensures ret == 0 <==> K1(pgdir, va / 4096) in ent
      ensures ret == 0 || ret == -1
      ensures ret == 0 ==> t == FrameOf(ent[K1(pgdir, va / 4096)]) && i == va / 4096 % 512
    {
      hide Linked, FreeExact, RolesOk, CountsExact, Closed, TablesStored, KernelShared;
      ghost var v := va / 4096;
      Ancestors(pgdir, v);
      TablesAbove(S(), pgdir, v);
      ShiftsAreDigits(va);
      UpIsDiv(v);
      UpIsDiv(Up(v));
      UpIsDiv(Up(Up(v)));
      var pmlindex := va / 0x80_0000_0000 % 512;
      var pdpindex := va / 0x4000_0000 % 512;
      var pml4: nat, pdpt: nat;
      t, i := 0, 0;
      assert NamedAt(S(), K4(pgdir));
      var w4 := ReadEntry(pgdir, pmlindex, K3(pgdir, v));
      if Present(w4) {
        pml4 := FrameOf(w4);
        var w3 := ReadEntry(pml4, pdpindex, K2(pgdir, v));
        if Present(w3) {
          pdpt := FrameOf(w3);
        } else {
          if !create { return -1, t, i; }
          pdpt := AddTable(pml4, pdpindex, K2(pgdir, v));
        }
      } else {
        if !create { return -1, t, i; }
        pml4 := AddTable(pgdir, pmlindex, K3(pgdir, v));
        assert NamedAt(S(), K3(pgdir, v));
        pdpt := AddTable(pml4, pdpindex, K2(pgdir, v));
      }
      ret, t, i := WalkDir(pdpt, va, create, pgdir);
    }

    /** tlb_invalid */
    method TlbInvalid(v: nat)
      requires Valid()
      modifies this`tlb
      ensures Valid() && S() == DropTlb(old(S()), v)
    {
      DropTlbInv(S(), v);
      tlb := tlb - {v};
    }

    /** insert_page: NULL is refused; otherwise the page is named by one entry more, in
        place of what its leaf held. */
    method InsertPage(pgdir: nat, va: nat, pp: int, flag: nat) returns (ret: int)
      requires Valid() && Space(S(), pgdir) && Lower(va / 4096)
      requires pp == NULL ||
        (0 <= pp < mem.Length && role[pp].Data? && |free| >= Missing(ent, pgdir, va / 4096))
      requires flag < 4096 && flag % 2 == 1
      modifies this, mem, count
      ensures Valid()
      ensures pp == NULL ==> ret == -1 && S() == old(S())
      ensures pp != NULL ==> ret == 0
      ensures pp != NULL && K0(pgdir, va / 4096) in old(ent) ==>
        S() == OverwriteF(old(S()), pgdir, va / 4096, pp, flag)
      ensures pp != NULL && K0(pgdir, va / 4096) !in old(ent) ==>
        S() == InsertF(old(S()), pgdir, va / 4096, pp, flag)
    {
      hide Linked, FreeExact, RolesOk, CountsExact, Closed, TablesStored, KernelShared, OverwriteF, InsertF;
      if pp == NULL { return -1; }
      ghost var v := va / 4096;
      ghost var s := S();
      var t, i;
      ret, t, i := WalkPage(pgdir, va, true);
      ghost var u := S();
      assert u == WalkCreateF(s, pgdir, v);
      InsertSplits(s, pgdir, v, pp, flag);
      Ancestors(pgdir, v);
      StoreLeaf(t, i, va, pp, flag, pgdir);
      ret := 0;
    }

    /** *pte = frame | flags, then invlpg */
    method StoreLeaf(t: nat, i: nat, va: nat, pp: nat, flag: nat, ghost r: nat)
      requires Valid() && Lower(va / 4096) && K1(r, va / 4096) in ent && Space(S(), r)
      requires Parent(K0(r, va / 4096)) == K1(r, va / 4096)
      requires t == FrameOf(ent[K1(r, va / 4096)]) && i == va / 4096 % 512
      requires pp < mem.Length && role[pp].Data? && flag < 4096 && flag % 2 == 1
      modifies this`ent, this`hold, this`tlb, mem
      ensures Valid()
      ensures if K0(r, va / 4096) in old(ent) then S() == OverwriteF(old(S()), r, va / 4096, pp, flag)
        else S() == LeafF(old(S()), K0(r, va / 4096), pp, flag)
    {
      hide Linked, FreeExact, RolesOk, CountsExact, Closed, TablesStored, KernelShared, OverwriteF;
      ghost var v, u, k := va / 4096, S(), K0(r, va / 4096);
      EntryParts(pp, flag);
      assert NamedAt(u, K1(r, v));
      if k in ent {
        OverwriteParts(u, r, v, pp, flag);
        ghost var g := FrameOf(ent[k]);
        hold := hold[g := hold[g] + 1];
      }
      mem[t] := mem[t][i := Entry(pp, flag)];
      ent := ent[k := Entry(pp, flag)];
      hold := hold[pp := hold[pp] - 1];
      tlb := tlb - {va / 4096};
      if k in u.ent {
        assert S() == OverwriteF(u, r, v, pp, flag);
      } else {
        assert S() == LeafF(u, k, pp, flag);
      }
    }

    /** remove_page: without a PT it fails; a mapped page gives up its reference. */
    method RemovePage(pgdir: nat, va: nat) returns (ret: int)
      requires Valid() && Space(S(), pgdir) && Lower(va / 4096)
      requires K0(pgdir, va / 4096) in ent ==>
        NamedAt(S(), K0(pgdir, va / 4096)) && hold[FrameOf(ent[K0(pgdir, va / 4096)])] >= 0
      modifies this, mem, count, link
      ensures Valid() && S() == RemoveF(old(S()), pgdir, va / 4096)
      ensures ret == if K1(pgdir, va / 4096) in old(ent) then 0 else -1
    {
      ghost var v := va / 4096;
      ghost var s := S();
      var t, i;
      ret, t, i := WalkPage(pgdir, va, false);
      if ret < 0 { return ret; }
      ghost var k := K0(pgdir, v);
      Ancestors(pgdir, v);
      UpIsDiv(v);
      var w := ReadEntry(t, i, k);
      if Present(w) {
        DropLeaf(t, i, va, w, pgdir);
      } else {
        assert s.mem[t][i := 0] == s.mem[t];
        mem[t] := mem[t][i := 0];
        assert mem[..] == s.mem;
        tlb := tlb - {va / 4096};
        assert S() == RemoveF(s, pgdir, v);
      }
      ret := 0;
    }

    /** The mapped case: free_page, clear the word, invalidate. */
    method DropLeaf(t: nat, i: nat, va: nat, w: nat, ghost r: nat)
      requires Valid() && Space(S(), r) && Lower(va / 4096) && K0(r, va / 4096) in ent
      requires NamedAt(S(), K0(r, va / 4096)) && hold[FrameOf(ent[K0(r, va / 4096)])] >= 0
      requires w == ent[K0(r, va / 4096)] && i == Slot(K0(r, va / 4096))
      requires Parent(K0(r, va / 4096)) in ent && t == FrameOf(ent[Parent(K0(r, va / 4096))])
      modifies this, mem, count, link
      ensures Valid() && S() == RemoveF(old(S()), r, va / 4096)
    {
      ghost var v := va / 4096;
      ghost var k, f, s := K0(r, v), FrameOf(w), S();
      assert CountAt(s, f);
      RefsPositive(s.ent, k);
      RemoveIs(s, r, v);
      assert NamedAt(s, Parent(k));
      hide FreeExact, Linked, RolesOk, Closed, KernelShared, TablesStored, CountsExact, RemoveF;
      FreePage(w / 4096);
      mem[t] := mem[t][i := 0];
      ent := ent - {k};
      hold := s.hold;
      tlb := tlb - {va / 4096};
      assert S() == RemoveF(s, r, v);
    }
  }
}
