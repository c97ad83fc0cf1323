/** destroy_vm: unmap the window, free the tables that served it, free the PML4. */
module Teardown {
  import opened Words
  import opened Vm
  import opened PageTable
  import opened AddressSpace
  import opened Fork

  /** The entries without the level-l nodes of r whose index lies in [lo, hi). */
  ghost function Without(ent: map<Key, nat>, r: nat, l: nat, lo: nat, hi: nat): map<Key, nat> {
    map k | k in ent && !(k.root == r && k.level == l && lo <= k.p < hi) :: ent[k]
  }

  lemma WithoutNext(ent: map<Key, nat>, r: nat, l: nat, lo: nat, p: nat)
    requires lo <= p
    ensures Without(ent, r, l, lo, p) - {Key(r, l, p)} == Without(ent, r, l, lo, p + 1)
    ensures Without(ent, r, l, lo, lo) == ent
    ensures Key(r, l, p) in Without(ent, r, l, lo, p) <==> Key(r, l, p) in ent
  {
  }

  /** The kernel owes no reference: holds are counts of its own references. */
  ghost predicate Settled(s: Vm) {
    forall f :: 0 <= f < |s.hold| ==> s.hold[f] >= 0
  }

  lemma SettledAt(s: Vm, k: Key)
    requires Inv(s) && Settled(s) && k in s.ent
    ensures NamedAt(s, k) && s.hold[FrameOf(s.ent[k])] >= 0
  {
    assert NamedAt(s, k);
  }

  lemma MemKeptTrans(s: Vm, t: Vm, u: Vm)
    requires Inv(s) && Inv(t) && Inv(u) && MemKept(s, t) && MemKept(t, u)
    ensures MemKept(s, u)
  {
  }

  /** Everything but the level-l nodes of r in [lo, hi) is as before. */
  ghost predicate Cleared(s: Vm, t: Vm, r: nat, l: nat, lo: nat, hi: nat)
    requires Inv(s)
  {
    && Inv(t) && MemKept(s, t) && t.hold == s.hold && t.cr3 == s.cr3 && t.khalf == s.khalf
    && t.ent == Without(s.ent, r, l, lo, hi)
  }

  /** Cached translations are a subset; none is left for [lo, hi). */
  ghost predicate TlbCleared(s: Vm, t: Vm, r: nat, lo: nat, hi: nat) {
    && (forall v :: v in t.tlb ==> v in s.tlb && t.tlb[v] == s.tlb[v])
    && (forall v :: v in t.tlb && lo <= v < hi ==> K1(r, v) !in s.ent)
  }

  /** The loop of remove_page over the pages [lo, hi). */
  ghost function RemoveAllF(s: Vm, r: nat, lo: nat, hi: nat): (t: Vm)
    requires Inv(s) && Space(s, r) && Settled(s) && lo <= hi && (lo < hi ==> Lower(hi - 1))
    ensures Cleared(s, t, r, 0, lo, hi) && TlbCleared(s, t, r, lo, hi)
    decreases hi
  {
    hide K1, Inv, Cleared, TlbCleared, Lower, Settled;
    if lo == hi then
      ClearedStart(s, r, 0, lo);
      s
    else
      var u := RemoveAllF(s, r, lo, hi - 1);
      RemoveReady(s, u, r, lo, hi - 1);
      RemoveNext(s, u, r, lo, hi - 1);
      RemoveF(u, r, hi - 1)
  }

  lemma ClearedStart(s: Vm, r: nat, l: nat, lo: nat)
    requires Inv(s)
    ensures Cleared(s, s, r, l, lo, lo) && TlbCleared(s, s, r, lo, lo)
  {
    WithoutNext(s.ent, r, l, lo, lo);
  }

  ghost predicate Removable(u: Vm, r: nat, v: nat)
    requires Inv(u)
  {
    K0(r, v) in u.ent ==> NamedAt(u, K0(r, v)) && u.hold[FrameOf(u.ent[K0(r, v)])] >= 0
  }

  lemma RemoveReady(s: Vm, u: Vm, r: nat, lo: nat, v: nat)
    requires Inv(s) && Space(s, r) && Settled(s) && lo <= v && Lower(v)
    requires Cleared(s, u, r, 0, lo, v)
    ensures Inv(u) && Space(u, r) && Settled(u) && Removable(u, r, v)
  {
    assert Settled(u);
    if K0(r, v) in u.ent { SettledAt(u, K0(r, v)); }
  }

  lemma RemoveNext(s: Vm, u: Vm, r: nat, lo: nat, v: nat)
    requires Inv(s) && Space(s, r) && lo <= v && Lower(v) && Inv(u) && Space(u, r)
    requires Removable(u, r, v)
    requires Cleared(s, u, r, 0, lo, v) && TlbCleared(s, u, r, lo, v)
    ensures Cleared(s, RemoveF(u, r, v), r, 0, lo, v + 1)
    ensures TlbCleared(s, RemoveF(u, r, v), r, lo, v + 1)
  {
    hide Inv, MemKept;
    var t := RemoveF(u, r, v);
    WithoutNext(s.ent, r, 0, lo, v);
    MemKeptTrans(s, u, t);
    assert K1(r, v) in s.ent <==> K1(r, v) in u.ent;
  }

  // ----------------------------------------------------------- free_pgtable

  /** Free the table of node k if there is one, and clear its word. */
  ghost function FreeNodeF(s: Vm, k: Key): (t: Vm)
    requires Inv(s) && 1 <= k.level < 4 && Settled(s) && Childless(s.ent, k)
    ensures Inv(t) && MemKept(s, t) && t.ent == s.ent - {k} && t.hold == s.hold
    ensures t.tlb == s.tlb && t.cr3 == s.cr3 && t.khalf == s.khalf
  {
    if k !in s.ent then s else
      SettledAt(s, k);
      DropNodeF(s, k)
  }

  /** No node of r at levels up to l, except those of level l at index hi or later. */
  ghost predicate NoBelow(ent: map<Key, nat>, r: nat, l: nat) {
    forall k :: k in ent && k.root == r ==> k.level >= l
  }

  lemma NoBelowChildless(ent: map<Key, nat>, k: Key)
    requires NoBelow(ent, k.root, k.level)
    ensures Childless(ent, k)
  {
  }

  /** The inner loop: free the PTs of r with index in [lo, hi). */
  ghost function FreePtsF(s: Vm, r: nat, lo: nat, hi: nat): (t: Vm)
    requires Inv(s) && Settled(s) && NoBelow(s.ent, r, 1) && lo <= hi
    ensures Cleared(s, t, r, 1, lo, hi) && t.tlb == s.tlb
    decreases hi
  {
    hide Inv, Cleared, Settled, NoBelow, Childless, MemKept, Without, TlbCleared;
    if lo == hi then
      ClearedStart(s, r, 1, lo);
      s
    else
      var u := FreePtsF(s, r, lo, hi - 1);
      FreeOne(s, u, r, lo, hi - 1);
      FreeNodeF(u, Key(r, 1, hi - 1))
  }

  lemma FreeReady(s: Vm, u: Vm, r: nat, lo: nat, p: nat)
    requires Inv(s) && Settled(s) && NoBelow(s.ent, r, 1) && Cleared(s, u, r, 1, lo, p)
    ensures Inv(u) && Settled(u) && NoBelow(u.ent, r, 1) && Childless(u.ent, Key(r, 1, p))
  {
    assert Settled(u);
    assert NoBelow(u.ent, r, 1);
    NoBelowChildless(u.ent, Key(r, 1, p));
  }

  lemma FreeOne(s: Vm, u: Vm, r: nat, lo: nat, p: nat)
    requires Inv(s) && Settled(s) && NoBelow(s.ent, r, 1) && lo <= p && Cleared(s, u, r, 1, lo, p)
    ensures Inv(u) && Settled(u) && Childless(u.ent, Key(r, 1, p))
    ensures Cleared(s, FreeNodeF(u, Key(r, 1, p)), r, 1, lo, p + 1)
  {
    hide Inv, Cleared, Settled, NoBelow, Childless, FreeNodeF;
    FreeReady(s, u, r, lo, p);
    FreeNext(s, u, r, lo, p);
  }

  lemma FreeNext(s: Vm, u: Vm, r: nat, lo: nat, p: nat)
    requires Inv(s) && Inv(u) && Settled(u) && lo <= p
    requires Cleared(s, u, r, 1, lo, p) && Childless(u.ent, Key(r, 1, p))
    ensures Cleared(s, FreeNodeF(u, Key(r, 1, p)), r, 1, lo, p + 1)
  {
    hide Inv, MemKept;
    WithoutNext(s.ent, r, 1, lo, p);
    MemKeptTrans(s, u, FreeNodeF(u, Key(r, 1, p)));
  }

  /** The nodes of r are confined to the window, and there is no leaf left. */
  ghost predicate Emptied(s: Vm, r: nat) {
    && Inv(s) && Settled(s) && Space(s, r) && NoBelow(s.ent, r, 1)
    && forall k :: k in s.ent && k.root == r ==> Confined(k)
  }

  /** free_pgtable for the window, which lies below PML4 slot 0 and PDPT slot 2. */
  ghost function FreePgtableF(s: Vm, r: nat): (t: Vm)
    requires Emptied(s, r)
  {
    var k3, k2 := Key(r, 3, 0), Key(r, 2, 2);
    if k3 !in s.ent then s
    else if k2 !in s.ent then NoPd(s, r); FreeNodeF(s, k3)
    else
      PtsFreed(s, r);
      PdFreed(s, r);
      FreeNodeF(FreeNodeF(FreePtsF(s, r, 1024, 1152), k2), k3)
  }

  lemma ParentsHere(s: Vm, r: nat, k: Key)
    requires Emptied(s, r) && k in s.ent && k.root == r
    ensures k.level == 1 ==> Key(r, 2, 2) in s.ent
    ensures k.level == 2 ==> k == Key(r, 2, 2) && Key(r, 3, 0) in s.ent
    ensures k.level == 3 ==> k == Key(r, 3, 0)
    ensures 1 <= k.level <= 4 && (k.level == 4 ==> k == K4(r))
  {
    RootOf(s, k);
    assert ClosedAt(s.ent, k);
    assert k.level < 4 ==> Parent(k) in s.ent;
    assert k.level < 4 ==> Confined(Parent(k));
    assert Confined(k);
  }

  lemma NoPd(s: Vm, r: nat)
    requires Emptied(s, r) && Key(r, 2, 2) !in s.ent
    ensures Childless(s.ent, Key(r, 3, 0))
    ensures forall k :: k in s.ent && k.root == r ==> k == Key(r, 3, 0) || k == K4(r)
  {
    forall k | k in s.ent && k.root == r ensures k == Key(r, 3, 0) || k == K4(r) {
      ParentsHere(s, r, k);
    }
  }

  lemma PtsFreed(s: Vm, r: nat)
    requires Emptied(s, r)
    ensures var u := FreePtsF(s, r, 1024, 1152);
      Inv(u) && Settled(u) && Childless(u.ent, Key(r, 2, 2)) && NoBelow(u.ent, r, 2)
  {
    hide Inv;
    var u := FreePtsF(s, r, 1024, 1152);
    forall k | k in u.ent && k.root == r ensures k.level >= 2 { assert Confined(k); }
    assert Settled(u);
    NoBelowChildless(u.ent, Key(r, 2, 2));
  }

  lemma PdFreed(s: Vm, r: nat)
    requires Emptied(s, r)
    ensures var u := FreePtsF(s, r, 1024, 1152);
      Inv(u) && Settled(u) && Childless(u.ent, Key(r, 2, 2))
      && Settled(FreeNodeF(u, Key(r, 2, 2)))
      && Childless(FreeNodeF(u, Key(r, 2, 2)).ent, Key(r, 3, 0))
  {
    hide Inv;
    PtsFreed(s, r);
    var u := FreePtsF(s, r, 1024, 1152);
    var d := FreeNodeF(u, Key(r, 2, 2));
    assert Settled(d);
    forall k | k in d.ent && k.root == r ensures k.level >= 3 {
      ParentsHere(s, r, k);
    }
    NoBelowChildless(d.ent, Key(r, 3, 0));
  }

  /** What is left of r when only its PML4 is left. */
  ghost function RootOnly(ent: map<Key, nat>, r: nat): map<Key, nat> {
    map k | k in ent && (k.root == r ==> k == K4(r)) :: ent[k]
  }

  lemma RootOnlyIs(ent: map<Key, nat>, r: nat)
    requires forall k :: k in ent && k.root == r ==>
      k == Key(r, 3, 0) || k == Key(r, 2, 2) || k == K4(r) || (k.level == 1 && 1024 <= k.p < 1152)
    ensures Without(ent, r, 1, 1024, 1152) - {Key(r, 2, 2)} - {Key(r, 3, 0)} == RootOnly(ent, r)
  {
  }

  /** Every table of the window is freed and its word cleared; the PML4 remains. */
  lemma TablesFreed(s: Vm, r: nat)
    requires Emptied(s, r)
    ensures var t := FreePgtableF(s, r);
      && Inv(t) && MemKept(s, t) && t.hold == s.hold && t.tlb == s.tlb
      && t.cr3 == s.cr3 && t.khalf == s.khalf && t.ent == RootOnly(s.ent, r)
  {
    hide Inv, MemKept, RootOnly, Without;
    if Key(r, 3, 0) !in s.ent {
      NoTables(s, r);
    } else if Key(r, 2, 2) !in s.ent {
      NoPdOnly(s, r);
    } else {
      AllTablesFreed(s, r);
    }
  }

  lemma NoPdOnly(s: Vm, r: nat)
    requires Emptied(s, r) && Key(r, 2, 2) !in s.ent
    ensures Childless(s.ent, Key(r, 3, 0)) && s.ent - {Key(r, 3, 0)} == RootOnly(s.ent, r)
  {
    NoPd(s, r);
  }

  lemma AllTablesFreed(s: Vm, r: nat)
    requires Emptied(s, r) && Key(r, 3, 0) in s.ent && Key(r, 2, 2) in s.ent
    ensures var t := FreePgtableF(s, r);
      && Inv(t) && MemKept(s, t) && t.hold == s.hold && t.tlb == s.tlb
      && t.cr3 == s.cr3 && t.khalf == s.khalf && t.ent == RootOnly(s.ent, r)
  {
    hide Inv, MemKept, RootOnly, Without, Confined;
    var t, k3, k2 := FreePgtableF(s, r), Key(r, 3, 0), Key(r, 2, 2);
    PtsFreed(s, r);
    PdFreed(s, r);
    var u := FreePtsF(s, r, 1024, 1152);
    MemKeptTrans(s, u, FreeNodeF(u, k2));
    MemKeptTrans(s, FreeNodeF(u, k2), t);
    NodesOf(s, r);
    RootOnlyIs(s.ent, r);
  }

  lemma NodesOf(s: Vm, r: nat)
    requires Emptied(s, r)
    ensures forall k :: k in s.ent && k.root == r ==>
      k == Key(r, 3, 0) || k == Key(r, 2, 2) || k == K4(r) || (k.level == 1 && 1024 <= k.p < 1152)
  {
    hide Inv;
    forall k | k in s.ent && k.root == r
      ensures k == Key(r, 3, 0) || k == Key(r, 2, 2) || k == K4(r) || (k.level == 1 && 1024 <= k.p < 1152)
    {
      ParentsHere(s, r, k);
      assert Confined(k);
    }
  }

  lemma NoTables(s: Vm, r: nat)
    requires Emptied(s, r) && Key(r, 3, 0) !in s.ent
    ensures MemKept(s, s) && s.ent == RootOnly(s.ent, r)
  {
    forall k | k in s.ent && k.root == r ensures k == K4(r) {
      ParentsHere(s, r, k);
      if k.level == 1 { ParentsHere(s, r, Key(r, 2, 2)); }
    }
  }

  // -------------------------------------------------------------- destroy_vm

  /** An address space that destroy_vm reclaims entirely. */
  ghost predicate Destroyable(s: Vm, r: nat) {
    && Inv(s) && Settled(s) && Space(s, r)
    && forall k :: k in s.ent && k.root == r ==> Confined(k)
  }

  /** The entries without address space r. */
  ghost function Others(ent: map<Key, nat>, r: nat): map<Key, nat> {
    map k | k in ent && k.root != r :: ent[k]
  }

  lemma WindowCleared(s: Vm, r: nat)
    requires Destroyable(s, r)
    ensures Lower(TOP - 1) && Emptied(RemoveAllF(s, r, TEXT, TOP), r)
  {
    WindowDigits(TOP - 1);
    WindowEmptied(s, RemoveAllF(s, r, TEXT, TOP), r);
  }

  lemma WindowEmptied(s: Vm, u: Vm, r: nat)
    requires Destroyable(s, r) && Cleared(s, u, r, 0, TEXT, TOP)
    ensures Emptied(u, r)
  {
    hide Inv, MemKept;
    assert Settled(u);
    forall k | k in u.ent && k.root == r ensures k.level >= 1 { assert Confined(k); }
  }

  ghost function DestroyF(s: Vm, r: nat): Vm
    requires Destroyable(s, r)
  {
    WindowCleared(s, r);
    var u := RemoveAllF(s, r, TEXT, TOP);
    TablesFreed(u, r);
    RootOnlySpace(u, r);
    RootGoneF(FreePgtableF(u, r), r)
  }

  /** free_page of the PML4 of an address space without tables. */
  ghost function RootGoneF(d: Vm, r: nat): (t: Vm)
    requires Inv(d) && Settled(d) && Space(d, r)
    requires forall k :: k in d.ent && k.root == r ==> k == K4(r)
    ensures Inv(t) && MemKept(d, t) && t.hold == d.hold && t.ent == d.ent - {K4(r)}
    ensures t.tlb == d.tlb && t.cr3 == d.cr3 && t.khalf == d.khalf
  {
    RootFree(d, r);
    FreeF(UnrootF(d, r), r)
  }

  lemma RootFree(d: Vm, r: nat)
    requires Inv(d) && Settled(d) && Space(d, r)
    requires forall k :: k in d.ent && k.root == r ==> k == K4(r)
    ensures r < |d.mem| && Inv(FreeF(UnrootF(d, r), r)) && FreeF(UnrootF(d, r), r).hold == d.hold
    ensures MemKept(d, FreeF(UnrootF(d, r), r)) && d.count[r] == 1
  {
    SettledAt(d, K4(r));
    assert RoleAt(d, r) && CountAt(d, r);
    UnrootInv(d, r);
    LastReference(UnrootF(d, r), r);
    FreeInv(UnrootF(d, r), r);
    assert CountAt(UnrootF(d, r), r);
    RefsDrop(d.ent, K4(r), r);
    RootRefs(d, r);
  }

  lemma RootRefs(d: Vm, r: nat)
    requires Inv(d) && Space(d, r) && r < |d.mem|
    ensures Refs(d.ent, r) == {K4(r)}
  {
    assert NamedAt(d, K4(r));
    forall k | k in d.ent && FrameOf(d.ent[k]) == r ensures k == K4(r) { assert NamedAt(d, k); }
  }

  /** Teardown removes exactly the address space, and every count stays exact. */
  lemma Destroyed(s: Vm, r: nat)
    requires Destroyable(s, r)
    ensures var t := DestroyF(s, r);
      && Inv(t) && MemKept(s, t) && t.hold == s.hold && t.ent == Others(s.ent, r)
      && t.cr3 == s.cr3 && t.khalf == s.khalf && TlbCleared(s, t, r, TEXT, TOP)
  {
    hide Inv, MemKept, Confined, Without, RootOnly, Others, Settled, FreePgtableF, Emptied, K1;
    WindowCleared(s, r);
    var u := RemoveAllF(s, r, TEXT, TOP);
    TablesFreed(u, r);
    var d := FreePgtableF(u, r);
    RootOnlySpace(u, r);
    assert Space(d, r);
    SettledSame(u, d);
    var t := RootGoneF(d, r);
    MemKeptTrans(s, u, d);
    MemKeptTrans(s, d, t);
    OthersAre(s, r);
  }

  lemma SettledSame(u: Vm, d: Vm)
    requires Settled(u) && d.hold == u.hold
    ensures Settled(d)
  {
  }

  lemma RootOnlySpace(u: Vm, r: nat)
    requires Emptied(u, r)
    ensures Settled(u) && K4(r) in RootOnly(u.ent, r) && K4(r) in u.ent
    ensures forall k :: k in RootOnly(u.ent, r) && k.root == r ==> k == K4(r)
  {
  }

  lemma OthersAre(s: Vm, r: nat)
    requires Destroyable(s, r)
    ensures RootOnly(Without(s.ent, r, 0, TEXT, TOP), r) - {K4(r)} == Others(s.ent, r)
  {
  }
}
