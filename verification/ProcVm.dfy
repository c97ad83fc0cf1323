/** The address-space routines of kernel/proc.c, in place on a machine. */
module ProcVm {
  import opened Words
  import opened Vm
  import opened PageTable
  import opened AddressSpace
  import opened Fork
  import opened Teardown
  import opened System
  import opened Mm

  /** alloc_vm: a zeroed frame overwritten with the kernel's PML4. */
  method AllocVm(m: Machine) returns (pgdir: int)
    requires m.Valid()
    modifies m, m.mem, m.count
    ensures m.Valid()
    ensures old(m.free) == [] ==> pgdir == NULL && m.S() == old(m.S())
    ensures old(m.free) != [] ==> pgdir == old(m.free)[0] && m.S() == AllocSpaceF(old(m.S()))
  {
    ghost var s := m.S();
    pgdir := m.AllocPage(1);
    if pgdir == NULL { return; }
    AllocInv(s, true);
    assert ZeroFrame()[..256] + m.kpgdir[256..] == m.kpgdir;
    m.mem[pgdir] := m.kpgdir;
    m.ent := m.ent[K4(pgdir) := Entry(pgdir, 0)];
    m.role := m.role[pgdir := Table(K4(pgdir))];
    m.hold := m.hold[pgdir := m.hold[pgdir] - 1];
    assert m.S() == AllocSpaceF(s);
  }

  /** The store of fork's loop: *pte = frame | U|P|COW, then invlpg. */
  method Downgrade(m: Machine, t: nat, i: nat, va: nat, ghost k: Key)
    requires m.Valid() && k in m.ent && k == K0(k.root, va / 4096) && Lower(va / 4096)
    requires Parent(k) in m.ent && NamedAt(m.S(), Parent(k))
    requires t == FrameOf(m.ent[Parent(k)]) && i == Slot(k)
    modifies m, m.mem
    ensures m.Valid() && m.S() == ReshareF(old(m.S()), k, UPC)
  {
    ghost var s := m.S();
    ChildOfParent(k);
    assert StoredAt(s, Parent(k), i);
    var w := m.mem[t][i];
    m.mem[t] := m.mem[t][i := w / 4096 * 4096 + UPC];
    m.ent := m.ent[k := Entry(FrameOf(w), UPC)];
    m.tlb := m.tlb - {va / 4096};
    assert m.S() == ReshareF(s, k, UPC);
  }

  /** insert_page into the child and pp->count++. */
  method Alias(m: Machine, c: nat, va: nat, pp: nat)
    requires m.Valid() && Space(m.S(), c) && Lower(va / 4096) && K0(c, va / 4096) !in m.ent
    requires pp < m.mem.Length && m.role[pp].Data? && |m.free| >= Missing(m.ent, c, va / 4096)
    modifies m, m.mem, m.count
    ensures m.Valid() && m.S() == AliasF(old(m.S()), c, va / 4096, pp)
  {
    hide InsertF, FreeExact, RolesOk, CountsExact, Named, Closed, TablesStored, KernelShared, Linked, K0, Missing;
    ghost var s := m.S();
    var ret := m.InsertPage(c, va, pp, UPC);
    assert ret == 0;
    AliasGood(s, c, va / 4096, pp);
    m.count[pp] := m.count[pp] + 1;
    m.hold := m.hold[pp := m.hold[pp] + 1];
    assert m.S() == AliasF(s, c, va / 4096, pp);
  }

  /** One round of sys_fork's loop. */
  method ShareRound(m: Machine, r: nat, c: nat, addr: nat)
    requires m.Valid() && Space(m.S(), r) && Space(m.S(), c) && r != c && Lower(addr / 4096)
    requires Sharable(m.S(), r, c, addr / 4096)
    modifies m, m.mem, m.count
    ensures m.Valid() && m.S() == ShareF(old(m.S()), r, c, addr / 4096)
  {
    hide FreeExact, RolesOk, CountsExact, Closed, TablesStored, KernelShared, Linked, Missing, K2, K3, Lower,
          Sharable, AliasF, ReshareF;
    ghost var s, v := m.S(), addr / 4096;
    ghost var k := K0(r, v);
    Ancestors(r, v);
    TablesAbove(s, r, v);
    UpIsDiv(v);
    SharedParts(s, r, c, v);
    var ret, t, i := m.WalkPage(r, addr, false);
    if ret < 0 { return; }
    assert NamedAt(s, K1(r, v));
    var w := m.ReadEntry(t, i, k);
    if w == 0 {
      return;
    }
    Alias(m, c, addr, w / 4096);
    Downgrade(m, t, i, addr, k);
  }

  lemma SharedParts(s: Vm, r: nat, c: nat, v: nat)
    requires Inv(s) && Space(s, c) && Lower(v) && r != c && Sharable(s, r, c, v)
    ensures K0(r, v) in s.ent ==>
      var f := FrameOf(s.ent[K0(r, v)]);
      && f < |s.mem| && s.role[f].Data? && K0(c, v) !in s.ent && |s.free| >= Missing(s.ent, c, v)
      && var a := AliasF(s, c, v, f);
      && K0(r, v) in a.ent && a.ent[K0(r, v)] == s.ent[K0(r, v)]
      && K1(r, v) in a.ent && K1(r, v) in s.ent && a.ent[K1(r, v)] == s.ent[K1(r, v)]
      && NamedAt(a, K1(r, v)) && ShareF(s, r, c, v) == ReshareF(a, K0(r, v), UPC)
      && s.ent[K0(r, v)] != 0
    ensures K0(r, v) !in s.ent ==> ShareF(s, r, c, v) == s
  {
    if K0(r, v) in s.ent { AliasKeeps(s, r, c, v); PresentEntry(s, K0(r, v)); }
  }

  /** The parent's entries for page v are still there after the child's insertion. */
  lemma AliasKeeps(s: Vm, r: nat, c: nat, v: nat)
    requires Inv(s) && Space(s, c) && Lower(v) && r != c && K0(r, v) in s.ent
    requires Sharable(s, r, c, v)
    ensures var a := AliasF(s, c, v, FrameOf(s.ent[K0(r, v)]));
      && K0(r, v) in a.ent && a.ent[K0(r, v)] == s.ent[K0(r, v)]
      && K1(r, v) in a.ent && K1(r, v) in s.ent && a.ent[K1(r, v)] == s.ent[K1(r, v)]
      && NamedAt(a, K1(r, v))
  {
    TablesAbove(s, r, v);
    var a := AliasF(s, c, v, FrameOf(s.ent[K0(r, v)]));
    var m := a.ent - {K0(c, v)};
    assert K0(r, v) in m && K1(r, v) in m;
    assert NamedAt(a, K1(r, v));
  }

  ghost predicate Shareable(s: Vm, r: nat, c: nat, v: nat) {
    && Inv(s) && Space(s, r) && r != c && EmptySpace(s, c) && TEXT <= v <= STACK
    && |ForkTables(s.ent, r, c, TEXT, v)| <= |s.free| && (TEXT < v ==> Lower(v - 1))
  }

  /** The loop can reach every earlier page if it can reach the last one. */
  lemma ShareableUpTo(s: Vm, r: nat, c: nat, v: nat)
    requires Inv(s) && Space(s, r) && r != c && EmptySpace(s, c) && TEXT <= v <= STACK
    requires |ForkTables(s.ent, r, c, TEXT, STACK)| <= |s.free|
    ensures Shareable(s, r, c, v)
  {
    hide Inv, EmptySpace, K1, K2, K3;
    SubsetCard(ForkTables(s.ent, r, c, TEXT, v), ForkTables(s.ent, r, c, TEXT, STACK));
    if TEXT < v { WindowDigits(v - 1); }
  }

  lemma ShareAllStep(s: Vm, u: Vm, r: nat, c: nat, v: nat)
    requires Shareable(s, r, c, v) && Shareable(s, r, c, v + 1)
    requires u == ShareAllF(s, r, c, TEXT, v)
    ensures Inv(u) && Space(u, r) && Space(u, c) && Lower(v) && Sharable(u, r, c, v)
    ensures ShareAllF(s, r, c, TEXT, v + 1) == ShareF(u, r, c, v)
  {
    hide K1, K2, K3, Inv, ShareF, ForkTables, Missing, EmptySpace;
    WindowDigits(v);
    ShareAffordable(s, u, r, c, TEXT, v);
    assert OtherAt(s.ent, u.ent, r, c, TEXT, v, K4(r));
  }

  /** sys_fork's loop over the window below the stack page. */
  method ShareAll(m: Machine, r: nat, c: nat)
    requires m.Valid() && Space(m.S(), r) && r != c && EmptySpace(m.S(), c)
    requires |ForkTables(m.ent, r, c, TEXT, STACK)| <= |m.free|
    modifies m, m.mem, m.count
    ensures m.Valid() && Shareable(old(m.S()), r, c, STACK)
    ensures m.S() == ShareAllF(old(m.S()), r, c, TEXT, STACK)
  {
    hide Inv, ShareF, ForkTables, EmptySpace, Shared, Missing, Sharable, ShareAllF, FreeExact, Linked;
    ghost var s := m.S();
    var addr: nat := 0x8000_0000;
    ShareableUpTo(s, r, c, TEXT);
    ShareAllStart(s, r, c);
    while addr < 0x8FFF_F000 - 4096
      invariant addr % 4096 == 0 && TEXT <= addr / 4096 <= STACK
      invariant m.Valid() && Shareable(s, r, c, addr / 4096)
      invariant m.S() == ShareAllF(s, r, c, TEXT, addr / 4096)
    {
      ghost var v := addr / 4096;
      ShareableUpTo(s, r, c, v + 1);
      ShareAllStep(s, m.S(), r, c, v);
      ShareRound(m, r, c, addr);
      addr := addr + 4096;
      assert addr / 4096 == v + 1;
    }
  }

  lemma ShareAllStart(s: Vm, r: nat, c: nat)
    requires Shareable(s, r, c, TEXT)
    ensures ShareAllF(s, r, c, TEXT, TEXT) == s
  {
  }

  /** The word the MMU uses for page v of the running address space. */
  function Translate(m: Machine, v: nat): (w: nat)
    requires m.cr3 < m.mem.Length
    reads m, m.mem, m.count
    ensures w == Lookup(m.S(), v)
  {
    if v in m.tlb then m.tlb[v] else Walk(m.mem[..], m.cr3, v)
  }

  lemma LookupAt(s: Vm, v: nat)
    requires Inv(s) && Space(s, s.cr3) && Lower(v)
    requires v in s.tlb ==> K0(s.cr3, v) in s.ent && s.tlb[v] == s.ent[K0(s.cr3, v)]
    ensures s.cr3 < |s.mem| && Lookup(s, v) == Get(s.ent, K0(s.cr3, v))
  {
    WalkIsLookup(s, s.cr3, v);
  }

  /** alloc_page(1) and the copy of the running process's page va into it. */
  method CopyPage(m: Machine, va: nat) returns (pp: nat)
    requires m.Valid() && m.free != [] && Space(m.S(), m.cr3) && Lower(va / 4096)
    requires K0(m.cr3, va / 4096) in m.ent
    requires va / 4096 in m.tlb ==> m.tlb[va / 4096] == m.ent[K0(m.cr3, va / 4096)]
    modifies m, m.mem, m.count
    ensures m.Valid() && pp == old(m.free)[0]
    ensures m.S() == CopyF(old(m.S()), K0(old(m.cr3), va / 4096))
  {
    ghost var s, k := m.S(), K0(m.cr3, va / 4096);
    ghost var a := AllocF(s, true);
    AllocInv(s, true);
    CopyParts(s, k);
    LookupAt(a, va / 4096);
    hide Linked, Inv, Lookup, FreeExact;
    var p := m.AllocPage(1);
    assert m.S() == a;
    var w := Translate(m, va / 4096);
    m.mem[p] := m.mem[w / 4096];
    pp := p;
    assert m.S() == CopyF(s, k);
  }

  lemma CopyParts(s: Vm, k: Key)
    requires Inv(s) && k in s.ent && k.level == 0 && s.free != []
    ensures var a, f, g := AllocF(s, true), s.free[0], FrameOf(s.ent[k]);
      && f < |s.mem| && g < |s.mem| && a.mem[g] == PageAt(s, k)
      && CopyF(s, k) == FillF(a, f, PageAt(s, k)) && Sized(CopyF(s, k)) && Inv(CopyF(s, k))
      && FreeExact(CopyF(s, k).count, CopyF(s, k).free)
  {
    AllocInv(s, true);
    assert NamedAt(s, k);
  }

  // ------------------------------------------------------------------- fork

  /** sys_fork's copy of the address space r, which is running; NULL without memory. */
  method ForkVm(m: Machine, r: nat) returns (c: int)
    requires m.Valid() && r == m.cr3 && Coherent(m.S())
    requires m.free == [] || Forkable(m.S(), r)
    modifies m, m.mem, m.count
    ensures m.Valid()
    ensures old(m.free) == [] ==> c == NULL && m.S() == old(m.S())
    ensures old(m.free) != [] ==> c == old(m.free)[0] && Forked(old(m.S()), m.S(), r, c)
  {
    hide Inv, FreeExact, Linked, AllocSpaceF, LoopF, ShareAllF, StackF, ForkF, CopyF, InsertF, Forkable;
    hide Coherent, EmptySpace, ForkTables, Lower, Missing, Space, K1, K2, K3, Shareable;
    ghost var s := m.S();
    if s.free != [] { ForkVmParts(s, r); }
    c := AllocVm(m);
    if c == NULL { return; }
    ShareAll(m, r, c);
    var va: nat := 0x8FFF_F000 - 4096;
    assert va / 4096 == STACK;
    var pp := CopyPage(m, va);
    var ret := m.InsertPage(c, va, pp, UWP);
  }

  lemma ForkVmParts(s: Vm, r: nat)
    requires s.free != [] && r == s.cr3 && Coherent(s) && Forkable(s, r)
    ensures var a, u, c := AllocSpaceF(s), LoopF(s, r), s.free[0];
      && Inv(a) && Space(a, r) && r != c && EmptySpace(a, c)
      && |ForkTables(a.ent, r, c, TEXT, STACK)| <= |a.free|
      && (Shareable(a, r, c, STACK) ==> u == ShareAllF(a, r, c, TEXT, STACK))
      && Inv(u) && u.free != [] && u.cr3 == r && Space(u, r) && Space(u, c) && Lower(STACK)
      && K0(r, STACK) in u.ent && K0(c, STACK) !in u.ent
      && (STACK in u.tlb ==> u.tlb[STACK] == u.ent[K0(r, STACK)])
      && var b := CopyF(u, K0(r, STACK));
      && Inv(b) && Space(b, c) && u.free[0] < |b.mem| && b.role[u.free[0]].Data?
      && K0(c, STACK) !in b.ent && |b.free| >= Missing(b.ent, c, STACK)
      && ForkF(s, r) == InsertF(b, c, STACK, u.free[0], UWP)
  {
    hide K1, K2, K3, Missing, ForkTables;
    var a, u, c := AllocSpaceF(s), LoopF(s, r), s.free[0];
    LoopStart(s, r);
    StackReady(s, r);
    assert K4(r) in s.ent && K4(r) in a.ent;
    assert OtherAt(a.ent, u.ent, r, c, TEXT, STACK, K4(r));
    assert OtherAt(a.ent, u.ent, r, c, TEXT, STACK, K0(r, STACK));
    assert STACK in u.tlb ==> STACK in s.tlb;
  }

  // --------------------------------------------------------------- teardown

  /** free_page of the table named by slot i of t, and clearing of the slot. */
  method FreeTable(m: Machine, t: nat, i: nat, ghost k: Key)
    requires m.Valid() && Settled(m.S()) && 1 <= k.level < 4 && k in m.ent && Childless(m.ent, k)
    requires Parent(k) in m.ent && NamedAt(m.S(), Parent(k))
    requires t == FrameOf(m.ent[Parent(k)]) && i == Slot(k) && (k.level == 3 ==> k.p < 256)
    modifies m, m.mem, m.count, m.link
    ensures m.Valid() && m.S() == FreeNodeF(old(m.S()), k)
  {
    hide FreeExact, Linked, Inv, FreeNodeF, DropNodeF, Settled, Childless;
    ghost var s := m.S();
    var w := m.ReadEntry(t, i, k);
    DropParts(s, k);
    m.FreePage(w / 4096);
    m.mem[t] := m.mem[t][i := 0];
    m.ent := m.ent - {k};
    m.hold := s.hold;
    m.role := FreeNodeF(s, k).role;
    assert m.S() == FreeNodeF(s, k);
  }

  lemma DropParts(s: Vm, k: Key)
    requires Inv(s) && Settled(s) && 1 <= k.level < 4 && k in s.ent && Childless(s.ent, k)
    requires Parent(k) in s.ent && NamedAt(s, Parent(k))
    ensures NamedAt(s, k)
    ensures var f := FrameOf(s.ent[k]);
      var d := FreeNodeF(s, k);
      var t := FreeF(s, f);
      && s.count[f] >= 1 && Inv(d) && Sized(d)
      && d == Vm(StoreF(s, k, 0), t.count, t.free, s.ent - {k}, d.role, s.hold, s.khalf, s.tlb, s.cr3)
      && FreeExact(d.count, d.free)
  {
    SettledAt(s, k);
    var f := FrameOf(s.ent[k]);
    assert CountAt(s, f);
    RefsPositive(s.ent, k);
    assert s.hold[f := s.hold[f] + 1][f := s.hold[f]] == s.hold;
  }

  /** *src != 0, then free_page and clear: the body of each loop of free_pgtable. */
  method FreeSlot(m: Machine, t: nat, i: nat, ghost k: Key)
    requires m.Valid() && Settled(m.S()) && 1 <= k.level < 4 && Childless(m.ent, k)
    requires Parent(k) in m.ent && NamedAt(m.S(), Parent(k))
    requires t == FrameOf(m.ent[Parent(k)]) && i == Slot(k) && (k.level == 3 ==> k.p < 256)
    modifies m, m.mem, m.count, m.link
    ensures m.Valid() && m.S() == FreeNodeF(old(m.S()), k)
  {
    var w := m.ReadEntry(t, i, k);
    if w == 0 { return; }
    FreeTable(m, t, i, k);
  }

  /** The keys and slots that free_pgtable visits. */
  lemma WindowSlots(r: nat, j: nat)
    requires j < 512
    ensures Parent(Key(r, 3, 0)) == K4(r) && Slot(Key(r, 3, 0)) == 0
    ensures Parent(Key(r, 2, 2)) == Key(r, 3, 0) && Slot(Key(r, 2, 2)) == 2
    ensures Parent(Key(r, 1, 1024 + j)) == Key(r, 2, 2) && Slot(Key(r, 1, 1024 + j)) == j
  {
    UpIsDiv(0);
    UpIsDiv(2);
    UpIsDiv(1024 + j);
  }

  lemma PtsStart(s: Vm, r: nat)
    requires Emptied(s, r) && Key(r, 2, 2) in s.ent
    ensures Inv(s) && Settled(s) && NoBelow(s.ent, r, 1)
    ensures FreePtsF(s, r, 1024, 1024) == s && NamedAt(s, Key(r, 2, 2)) && NamedAt(s, K4(r))
    ensures Key(r, 3, 0) in s.ent && NamedAt(s, Key(r, 3, 0))
  {
    ParentsHere(s, r, Key(r, 2, 2));
  }

  lemma PtsNext(s: Vm, u: Vm, r: nat, j: nat)
    requires Emptied(s, r) && Key(r, 2, 2) in s.ent && u == FreePtsF(s, r, 1024, 1024 + j)
    ensures Inv(u) && Settled(u) && Childless(u.ent, Key(r, 1, 1024 + j))
    ensures Key(r, 2, 2) in u.ent && u.ent[Key(r, 2, 2)] == s.ent[Key(r, 2, 2)]
    ensures NamedAt(u, Key(r, 2, 2))
    ensures FreePtsF(s, r, 1024, 1024 + j + 1) == FreeNodeF(u, Key(r, 1, 1024 + j))
  {
    hide Inv;
    FreeReady(s, u, r, 1024, 1024 + j);
    NamedHere(u, Key(r, 2, 2));
  }

  lemma NamedHere(s: Vm, k: Key)
    requires Inv(s) && k in s.ent
    ensures NamedAt(s, k)
  {
  }

  function RegionAddr(j: nat): nat { 0x8000_0000 + j * 0x20_0000 }

  lemma NextRegion(j: nat)
    ensures (RegionAddr(j) / 0x20_0000 + 1) * 0x20_0000 == RegionAddr(j + 1)
    ensures j < 128 ==> (RegionAddr(j + 1) >= 0x8FFF_F000 <==> j + 1 == 128)
    ensures RegionAddr(0) == 0x8000_0000 && RegionAddr(0) / 0x20_0000 % 512 == 0
  {
  }

  /** The loop has freed the first j PTs. */
  ghost predicate FreedTo(s: Vm, t: Vm, r: nat, j: nat) {
    Emptied(s, r) && Key(r, 2, 2) in s.ent && t == FreePtsF(s, r, 1024, 1024 + j)
  }

  method FreePt(m: Machine, pd: nat, i2: nat, ghost r: nat, ghost s: Vm)
    requires m.Valid() && i2 < 128 && FreedTo(s, m.S(), r, i2)
    requires pd == FrameOf(s.ent[Key(r, 2, 2)])
    modifies m, m.mem, m.count, m.link
    ensures m.Valid() && FreedTo(s, m.S(), r, i2 + 1)
  {
    hide Inv, Emptied, FreeNodeF, FreePtsF, FreeExact, Linked, Settled, Childless, NoBelow, Parent, Slot;
    PtsNext(s, m.S(), r, i2);
    WindowSlots(r, i2);
    FreeSlot(m, pd, i2, Key(r, 1, 1024 + i2));
  }

  /** USTACKTOP, where free_pgtable stops. */
  const END: nat := 0x8FFF_F000

  /** A pointer that has run off the end of its table. */
  predicate PastTable(i: int) { i % 512 == 0 }

  /** The do-while over the PD.  It is left by `goto out_pdp_free`, never by running off
      the end of the PD. */
  method FreePts(m: Machine, pd: nat, from: nat, ghost r: nat) returns (addr: nat, left: bool)
    requires m.Valid() && Emptied(m.S(), r) && Key(r, 2, 2) in m.ent && from == 0x8000_0000
    requires pd == FrameOf(m.ent[Key(r, 2, 2)])
    modifies m, m.mem, m.count, m.link
    ensures m.Valid() && m.S() == FreePtsF(old(m.S()), r, 1024, 1152) && left && addr >= END
  {
    hide FreedTo, RegionAddr, Machine.Valid, FrameOf, Emptied, FreePtsF;
    ghost var s := m.S();
    FreedNothing(s, r);
    NextRegion(0);
    addr, left := from, false;
    var i2: nat, off := addr / 0x20_0000 % 512, false;
    while !left && !off
      invariant m.Valid() && !off
      invariant if left then addr >= END && FreedTo(s, m.S(), r, 128) else
        i2 < 128 && addr == RegionAddr(i2) < END && FreedTo(s, m.S(), r, i2)
      decreases if left then 0 else END - addr
    {
      FreePt(m, pd, i2, r, s);
      NextRegion(i2);
      addr := (addr / 0x20_0000 + 1) * 0x20_0000;
      left := addr >= END;
      if !left {
        i2 := i2 + 1;
        off := PastTable(i2);
      }
    }
    FreedAll(s, m.S(), r);
  }

  lemma FreedNothing(s: Vm, r: nat)
    requires Emptied(s, r) && Key(r, 2, 2) in s.ent
    ensures FreedTo(s, s, r, 0)
  {
    PtsStart(s, r);
  }

  lemma FreedAll(s: Vm, t: Vm, r: nat)
    requires FreedTo(s, t, r, 128)
    ensures Inv(s) && Settled(s) && NoBelow(s.ent, r, 1) && t == FreePtsF(s, r, 1024, 1152)
  {
  }

  /** The do-while over the PML4.  What ends it is that addr reaches USTACKTOP. */
  method FreePgtable(m: Machine, pgdir: nat)
    requires m.Valid() && Emptied(m.S(), pgdir)
    modifies m, m.mem, m.count, m.link
    ensures m.Valid() && m.S() == FreePgtableF(old(m.S()), pgdir)
  {
    hide Inv, FreePgtableF, FreeNodeF, Machine.Valid, Slot, Parent, Settled, Childless, PdsFreed, Emptied;
    ghost var s, k3 := m.S(), Key(pgdir, 3, 0);
    WindowSlots(pgdir, 0);
    var addr := 0x8000_0000;
    var i4, left, off := addr / 0x80_0000_0000 % 512, false, false;
    while !left && !off
      invariant m.Valid() && !off
      invariant if left then m.S() == FreePgtableF(s, pgdir) else m.S() == s && addr == 0x8000_0000 && i4 == 0
      decreases if left then 0 else END - addr
    {
      EmptiedParts(s, pgdir);
      var w4 := m.ReadEntry(pgdir, i4, k3);
      if w4 != 0 {
        addr, left := FreePds(m, w4 / 4096, addr, pgdir);
        PdsParts(s, m.S(), pgdir);
        FreeTable(m, pgdir, i4, k3);
      } else {
        NoPdpt(s, pgdir);
      }
      if !left {
        addr := (addr / 0x80_0000_0000 + 1) * 0x80_0000_0000;
        left := addr >= END;
        if !left {
          i4 := i4 + 1;
          off := PastTable(i4);
        }
      }
    }
  }

  /** The do-while over the PDPT, likewise. */
  method FreePds(m: Machine, pdpt: nat, from: nat, ghost r: nat) returns (addr: nat, left: bool)
    requires m.Valid() && Emptied(m.S(), r) && Key(r, 3, 0) in m.ent && from == 0x8000_0000
    requires pdpt == FrameOf(m.ent[Key(r, 3, 0)])
    modifies m, m.mem, m.count, m.link
    ensures m.Valid() && PdsFreed(old(m.S()), m.S(), r) && left && addr >= END
  {
    hide Inv, FreePgtableF, FreeNodeF, Machine.Valid, Slot, Parent, Settled, Childless, PdsFreed, Emptied;
    ghost var s, k2 := m.S(), Key(r, 2, 2);
    WindowSlots(r, 0);
    addr, left := from, false;
    var i3, off := addr / 0x4000_0000 % 512, false;
    while !left && !off
      invariant m.Valid() && !off
      invariant if left then addr >= END && PdsFreed(s, m.S(), r) else m.S() == s && addr == 0x8000_0000 && i3 == 2
      decreases if left then 0 else END - addr
    {
      EmptiedParts(s, r);
      var w3 := m.ReadEntry(pdpt, i3, k2);
      if w3 != 0 {
        addr, left := FreePd(m, pdpt, i3, w3 / 4096, addr, r);
      } else {
        NoPdFreed(s, r);
      }
      if !left {
        addr := (addr / 0x4000_0000 + 1) * 0x4000_0000;
        left := addr >= END;
        if !left {
          i3 := i3 + 1;
          off := PastTable(i3);
        }
      }
    }
  }

  /** Below the PDPT of the window nothing is left. */
  ghost predicate PdsFreed(s: Vm, t: Vm, r: nat) {
    var k3 := Key(r, 3, 0);
    && Emptied(s, r) && Sized(t) && Inv(t) && Settled(t) && k3 in t.ent && Childless(t.ent, k3)
    && K4(r) in t.ent && K4(r) in s.ent && t.ent[K4(r)] == s.ent[K4(r)] && NamedAt(t, K4(r))
    && FreePgtableF(s, r) == FreeNodeF(t, k3)
  }

  lemma PdsParts(s: Vm, t: Vm, r: nat)
    requires PdsFreed(s, t, r)
    ensures var k3 := Key(r, 3, 0);
      && Emptied(s, r) && Sized(t) && Inv(t) && Settled(t) && k3 in t.ent && Childless(t.ent, k3)
      && K4(r) in t.ent && FrameOf(t.ent[K4(r)]) == r && NamedAt(t, K4(r))
      && FreePgtableF(s, r) == FreeNodeF(t, k3)
  {
    hide Inv, FreePgtableF, FreeNodeF, Settled, Childless, Emptied;
  }

  lemma NoPdFreed(s: Vm, r: nat)
    requires Emptied(s, r) && Key(r, 3, 0) in s.ent && Key(r, 2, 2) !in s.ent
    ensures PdsFreed(s, s, r)
  {
    hide FreeNodeF, Inv;
    NoPd(s, r);
    NamedHere(s, K4(r));
    SizedAll(s);
  }

  lemma NoPdpt(s: Vm, r: nat)
    requires Emptied(s, r) && Key(r, 3, 0) !in s.ent
    ensures FreePgtableF(s, r) == s
  {
  }

  lemma EmptiedParts(s: Vm, r: nat)
    requires Emptied(s, r)
    ensures Sized(s) && K4(r) in s.ent && NamedAt(s, K4(r)) && FrameOf(s.ent[K4(r)]) == r
    ensures Key(r, 3, 0) in s.ent ==> NamedAt(s, Key(r, 3, 0))
  {
    hide Settled, NoBelow;
    NamedHere(s, K4(r));
    if Key(r, 3, 0) in s.ent { NamedHere(s, Key(r, 3, 0)); }
  }

  /** out_pdp_free: the PTs are gone, then the PD goes. */
  method FreePd(m: Machine, pdpt: nat, i3: nat, pd: nat, from: nat, ghost r: nat) returns (addr: nat, left: bool)
    requires m.Valid() && Emptied(m.S(), r) && Key(r, 3, 0) in m.ent && Key(r, 2, 2) in m.ent && from == 0x8000_0000
    requires pdpt == FrameOf(m.ent[Key(r, 3, 0)]) && pd == FrameOf(m.ent[Key(r, 2, 2)]) && i3 == 2
    modifies m, m.mem, m.count, m.link
    ensures m.Valid() && PdsFreed(old(m.S()), m.S(), r) && left && addr >= END
  {
    hide Inv, Emptied, FreeNodeF, FreePtsF, FreePgtableF, Settled, Childless, FrameOf, Linked, FreeExact, Slot, Parent;
    ghost var s, k2 := m.S(), Key(r, 2, 2);
    WindowSlots(r, 0);
    PtsStart(s, r);
    PtsFreed(s, r);
    ghost var u := FreePtsF(s, r, 1024, 1152);
    AllFreed(s, u, FreeNodeF(u, k2), r);
    addr, left := FreePts(m, pd, from, r);
    FreeTable(m, pdpt, i3, k2);
  }

  lemma AllFreed(s: Vm, u: Vm, d: Vm, r: nat)
    requires Emptied(s, r) && Key(r, 3, 0) in s.ent && Key(r, 2, 2) in s.ent
    requires u == FreePtsF(s, r, 1024, 1152)
    requires Inv(u) && Settled(u) && Childless(u.ent, Key(r, 2, 2)) ==> d == FreeNodeF(u, Key(r, 2, 2))
    ensures Inv(u) && Settled(u) && Childless(u.ent, Key(r, 2, 2)) && Key(r, 2, 2) in u.ent
    ensures Key(r, 3, 0) in u.ent && u.ent[Key(r, 3, 0)] == s.ent[Key(r, 3, 0)]
    ensures NamedAt(u, Key(r, 3, 0))
    ensures Inv(d) && Settled(d) && Childless(d.ent, Key(r, 3, 0)) && Key(r, 3, 0) in d.ent
    ensures d.ent[Key(r, 3, 0)] == s.ent[Key(r, 3, 0)]
    ensures K4(r) in d.ent && d.ent[K4(r)] == s.ent[K4(r)] && NamedAt(d, K4(r))
    ensures FreePgtableF(s, r) == FreeNodeF(d, Key(r, 3, 0))
  {
    hide Inv, Settled, Childless, FreeNodeF, FreePtsF, MemKept;
    PtsFreed(s, r);
    PdFreed(s, r);
    NamedHere(u, Key(r, 3, 0));
    NamedHere(d, K4(r));
  }

  ghost predicate Unmappable(s: Vm, r: nat, v: nat) {
    Inv(s) && Space(s, r) && Settled(s) && TEXT <= v <= TOP && (TEXT < v ==> Lower(v - 1))
  }

  lemma UnmappableAt(s: Vm, r: nat, v: nat)
    requires Inv(s) && Space(s, r) && Settled(s) && TEXT <= v <= TOP
    ensures Unmappable(s, r, v) && (v == TEXT ==> RemoveAllF(s, r, TEXT, v) == s)
  {
    if TEXT < v { WindowDigits(v - 1); }
  }

  lemma RemoveAllStep(s: Vm, u: Vm, r: nat, v: nat)
    requires Unmappable(s, r, v) && Unmappable(s, r, v + 1) && u == RemoveAllF(s, r, TEXT, v)
    ensures Inv(u) && Space(u, r) && Lower(v) && Removable(u, r, v)
    ensures RemoveAllF(s, r, TEXT, v + 1) == RemoveF(u, r, v)
  {
    hide Inv, Settled;
    RemoveReady(s, u, r, TEXT, v);
  }

  /** remove_page for every page of the window: exec's and destroy_vm's first loop. */
  method RemoveAll(m: Machine, r: nat)
    requires m.Valid() && Space(m.S(), r) && Settled(m.S())
    modifies m, m.mem, m.count, m.link
    ensures m.Valid() && Unmappable(old(m.S()), r, TOP)
    ensures m.S() == RemoveAllF(old(m.S()), r, TEXT, TOP)
  {
    hide Inv, RemoveF, RemoveAllF, FreeExact, Linked, Unmappable, Removable, Settled, Lower;
    ghost var s := m.S();
    var addr: nat := 0x8000_0000;
    UnmappableAt(s, r, TEXT);
    while addr < 0x8FFF_F000
      invariant addr % 4096 == 0 && TEXT <= addr / 4096 <= TOP
      invariant m.Valid() && Unmappable(s, r, addr / 4096)
      invariant RemovedTo(s, m.S(), r, addr / 4096)
    {
      ghost var v := addr / 4096;
      UnmappableAt(s, r, v + 1);
      RemoveAllStep(s, m.S(), r, v);
      RemovableParts(m.S(), r, v);
      var ret := m.RemovePage(r, addr);
      addr := addr + 4096;
      assert addr / 4096 == v + 1;
    }
  }

  ghost predicate RemovedTo(s: Vm, t: Vm, r: nat, v: nat) {
    Unmappable(s, r, v) && t == RemoveAllF(s, r, TEXT, v)
  }

  lemma RemovableParts(u: Vm, r: nat, v: nat)
    requires Inv(u) && Removable(u, r, v)
    ensures K0(r, v) in u.ent ==> NamedAt(u, K0(r, v)) && u.hold[FrameOf(u.ent[K0(r, v)])] >= 0
  {
  }

  /** destroy_vm */
  method DestroyVm(m: Machine, r: nat)
    requires m.Valid() && Destroyable(m.S(), r)
    modifies m, m.mem, m.count, m.link
    ensures m.Valid() && m.S() == DestroyF(old(m.S()), r)
  {
    hide Inv, Destroyable, Emptied, RootGoneF, RemoveAllF, FreePgtableF, DestroyF, FreeExact, Linked, Settled, RootOnly;
    ghost var s := m.S();
    DestroyParts(s, r);
    RemoveAll(m, r);
    FreePgtable(m, r);
    FreeRoot(m, r);
  }

  lemma DestroyParts(s: Vm, r: nat)
    requires Destroyable(s, r)
    ensures Inv(s) && Space(s, r) && Settled(s) && Lower(TOP - 1)
    ensures var u := RemoveAllF(s, r, TEXT, TOP);
      Emptied(u, r) && OnlyRoot(FreePgtableF(u, r), r)
      && DestroyF(s, r) == RootGoneF(FreePgtableF(u, r), r)
  {
    hide Inv, RemoveAllF, FreePgtableF, RootGoneF;
    WindowCleared(s, r);
    var u := RemoveAllF(s, r, TEXT, TOP);
    TablesFreed(u, r);
    RootOnlySpace(u, r);
    SettledSame(u, FreePgtableF(u, r));
  }

  ghost predicate OnlyRoot(d: Vm, r: nat) {
    Inv(d) && Settled(d) && Space(d, r) && forall k :: k in d.ent && k.root == r ==> k == K4(r)
  }

  /** free_page(VA2PAGE(p->pgdir)) */
  method FreeRoot(m: Machine, r: nat)
    requires m.Valid() && OnlyRoot(m.S(), r)
    modifies m, m.mem, m.count, m.link
    ensures m.Valid() && m.S() == RootGoneF(old(m.S()), r)
  {
    ghost var s := m.S();
    RootParts(s, r);
    hide Inv, RootGoneF, FreeExact, Linked, OnlyRoot;
    m.FreePage(r);
    m.ent := m.ent - {K4(r)};
    m.hold := s.hold;
    m.role := RootGoneF(s, r).role;
    assert m.S() == RootGoneF(s, r);
  }

  lemma RootParts(s: Vm, r: nat)
    requires OnlyRoot(s, r)
    ensures r < |s.mem| && s.count[r] >= 1
    ensures var d, t := RootGoneF(s, r), FreeF(s, r);
      && Inv(d) && Sized(d) && FreeExact(d.count, d.free)
      && d == Vm(s.mem, t.count, t.free, s.ent - {K4(r)}, d.role, s.hold, s.khalf, s.tlb, s.cr3)
  {
    RootFree(s, r);
    assert s.hold[r := s.hold[r] + 1][r := s.hold[r]] == s.hold;
  }
}
