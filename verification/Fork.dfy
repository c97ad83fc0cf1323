/** sys_fork's copy of the address space: a new PML4, every page but the stack
    shared read-only, the stack page copied. */
module Fork {
  import opened Words
  import opened Vm
  import opened PageTable
  import opened AddressSpace

  /** After alloc_vm and the sharing loop. */
  ghost function LoopF(s: Vm, r: nat): (t: Vm)
    requires Inv(s) && Space(s, r) && |s.free| >= 4 + |Regions(s.ent, r)|
    requires K0(r, STACK) in s.ent
    ensures Inv(t) && Shared(AllocSpaceF(s), t, r, s.free[0], TEXT, STACK)
  {
    LoopStart(s, r);
    ShareAllF(AllocSpaceF(s), r, s.free[0], TEXT, STACK)
  }

  lemma LoopStart(s: Vm, r: nat)
    requires Inv(s) && Space(s, r) && |s.free| >= 4 + |Regions(s.ent, r)|
    requires K0(r, STACK) in s.ent
    ensures r != s.free[0] && Lower(STACK - 1)
    ensures |ForkTables(AllocSpaceF(s).ent, r, s.free[0], TEXT, STACK)| <= |AllocSpaceF(s).free|
  {
    hide K1, K2, K3, Regions, ForkTables, Inv, EmptySpace;
    var a, c := AllocSpaceF(s), s.free[0];
    assert K4(r) in s.ent;
    ForkTablesStep(a.ent, r, c, TEXT, STACK);
    SubsetCard(ForkTables(a.ent, r, c, TEXT, STACK), ForkTables(a.ent, r, c, TEXT, TOP));
    ForkTablesCount(a.ent, r, c);
    RegionsOf(s.ent, a.ent, r);
  }

  lemma RegionsOf(s: map<Key, nat>, t: map<Key, nat>, r: nat)
    requires forall v :: K0(r, v) in s <==> K0(r, v) in t
    ensures Regions(t, r) == Regions(s, r)
  {
  }

  /** The state from which the child's stack page is inserted. */
  lemma StackReady(s: Vm, r: nat)
    requires Inv(s) && Space(s, r) && |s.free| >= 4 + |Regions(s.ent, r)|
    requires K0(r, STACK) in s.ent
    ensures var u, c := LoopF(s, r), s.free[0];
      && K0(r, STACK) in u.ent && K0(c, STACK) !in u.ent && Space(u, c) && Lower(STACK)
      && |u.free| == |s.free| - 1 - |TableKeys(u.ent, c)|
      && |u.free| >= 1 + Missing(u.ent, c, STACK)
      && |TableKeys(u.ent, c)| + Missing(u.ent, c, STACK) == 2 + |Regions(s.ent, r)|
  {
    hide K1, K2, K3, Regions, ForkTables, Inv, EmptySpace, TableKeys, Missing, DataKept;
    var u, c, a := LoopF(s, r), s.free[0], AllocSpaceF(s);
    LoopStart(s, r);
    WindowDigits(STACK);
    assert OtherAt(a.ent, u.ent, r, c, TEXT, STACK, K0(r, STACK));
    assert ChildAt(a.ent, u.ent, r, c, TEXT, STACK, STACK);
    ForkTablesStep(a.ent, r, c, TEXT, STACK);
    ForkTablesCount(a.ent, r, c);
    RegionsOf(s.ent, a.ent, r);
    StackTables(u.ent, c);
  }

  lemma StackTables(ent: map<Key, nat>, c: nat)
    ensures |TableKeys(ent, c) + {K1(c, STACK), K2(c, STACK), K3(c, STACK)}|
         == |TableKeys(ent, c)| + Missing(ent, c, STACK)
  {
    CardAddThree(TableKeys(ent, c), K1(c, STACK), K2(c, STACK), K3(c, STACK));
  }

  /** fork's address space, built; its PML4 is the old head of the free list. */
  ghost function ForkF(s: Vm, r: nat): (t: Vm)
    requires Inv(s) && Space(s, r) && |s.free| >= 4 + |Regions(s.ent, r)|
    requires K0(r, STACK) in s.ent
  {
    StackReady(s, r);
    StackCopied(LoopF(s, r), r, s.free[0]);
    StackF(LoopF(s, r), r, s.free[0])
  }

  /** Copy the stack page into a fresh frame and map it writable in c. */
  ghost function StackF(u: Vm, r: nat, c: nat): (t: Vm)
    requires Inv(u) && Space(u, c) && K0(r, STACK) in u.ent && K0(c, STACK) !in u.ent
    requires |u.free| >= 1 + Missing(u.ent, c, STACK)
  {
    WindowDigits(STACK);
    InsertF(CopyF(u, K0(r, STACK)), c, STACK, u.free[0], UWP)
  }

  lemma StackCopied(u: Vm, r: nat, c: nat)
    requires Inv(u) && Space(u, c) && K0(r, STACK) in u.ent && K0(c, STACK) !in u.ent
    requires |u.free| >= 1 + Missing(u.ent, c, STACK)
    ensures Inv(StackF(u, r, c)) && DataKept(u, StackF(u, r, c))
    ensures StackF(u, r, c).hold == u.hold && StackF(u, r, c).cr3 == u.cr3
    ensures StackF(u, r, c).khalf == u.khalf && StackF(u, r, c).tlb == u.tlb - {STACK}
    ensures |StackF(u, r, c).free| == |u.free| - 1 - Missing(u.ent, c, STACK)
    ensures K0(c, STACK) in StackF(u, r, c).ent
    ensures StackF(u, r, c).ent[K0(c, STACK)] == Entry(u.free[0], UWP)
    ensures Grown(u.ent, StackF(u, r, c).ent - {K0(c, STACK)}, c, STACK)
    ensures PageAt(StackF(u, r, c), K0(c, STACK)) == PageAt(u, K0(r, STACK))
  {
    hide K1, K2, K3, Missing, InsertF, CopyF, FrameOf, Entry, GrownBy, Inv;
    WindowDigits(STACK);
    AllocInv(u, true);
    SizedAll(u);
    var b := CopyF(u, K0(r, STACK));
    DataKeptTrans(u, b, StackF(u, r, c));
    EntryParts(u.free[0], UWP);
  }

  // ------------------------------------------------------- what fork has done

  /** The nodes that the pages of the user window need. */
  predicate Confined(k: Key) {
    if k.level == 0 then InWindow(k.p)
    else if k.level == 1 then 1024 <= k.p < 1152
    else if k.level == 2 then k.p == 2
    else k.p == 0
  }

  ghost predicate Forkable(s: Vm, r: nat) {
    Inv(s) && Space(s, r) && |s.free| >= 4 + |Regions(s.ent, r)| && K0(r, STACK) in s.ent
  }

  /** t is s after fork of address space r; c is the child's PML4. */
  ghost predicate Forked(s: Vm, t: Vm, r: nat, c: nat) {
    Forkable(s, r) && c == s.free[0] && t == ForkF(s, r)
  }

  /** The states between alloc_vm, the loop and the stack page. */
  lemma ForkParts(s: Vm, t: Vm, r: nat, c: nat) returns (a: Vm, u: Vm)
    requires Forked(s, t, r, c)
    ensures Inv(s) && Inv(a) && Inv(u) && Inv(t) && r != c
    ensures DataKept(s, a) && DataKept(a, u) && DataKept(u, t) && DataKept(s, t)
    ensures a.ent == s.ent[K4(c) := Entry(c, 0)] && forall k :: k in s.ent ==> k.root != c
    ensures Shared(a, u, r, c, TEXT, STACK) && a.hold == s.hold && a.tlb == s.tlb
    ensures a.cr3 == s.cr3 && a.khalf == s.khalf && Space(a, c) && EmptySpace(a, c)
    ensures K0(r, STACK) in s.ent && K0(r, STACK) in u.ent && K0(c, STACK) !in u.ent
    ensures u.free != [] && |u.free| >= 1 + Missing(u.ent, c, STACK) && t == StackF(u, r, c)
    ensures K0(c, STACK) in t.ent && t.ent[K0(c, STACK)] == Entry(u.free[0], UWP)
    ensures Grown(u.ent, t.ent - {K0(c, STACK)}, c, STACK)
    ensures PageAt(t, K0(c, STACK)) == PageAt(u, K0(r, STACK))
  {
    hide K1, K2, K3, Missing;
    a, u := AllocSpaceF(s), LoopF(s, r);
    StackReady(s, r);
    StackCopied(u, r, c);
    DataKeptTrans(s, a, u);
    DataKeptTrans(s, u, t);
  }

  lemma ForkedParts(s: Vm, t: Vm, r: nat, c: nat)
    requires Forked(s, t, r, c)
    ensures Inv(s) && Space(s, r) && |s.free| >= 4 + |Regions(s.ent, r)| && K0(r, STACK) in s.ent && c == s.free[0]
    ensures ForkF(s, r) == t
  {
    hide ForkF;
  }

  lemma ForkFrees(s: Vm, t: Vm, r: nat, c: nat)
    requires Forked(s, t, r, c)
    ensures Space(t, c) && |t.free| == |s.free| - (4 + |Regions(s.ent, r)|)
  {
    hide K0, K1, K2, K3, Missing, Inv, DataKept, Regions, StackF, Forked, LoopF, TableKeys, Shared;
    ForkedParts(s, t, r, c);
    StackReady(s, r);
    StackCopied(LoopF(s, r), r, c);
    GrownSpace(LoopF(s, r).ent, t.ent - {K0(c, STACK)}, c, STACK, c);
    assert K4(c) in t.ent - {K0(c, STACK)};
  }

  lemma ForkDropsTlb(s: Vm, t: Vm, r: nat, c: nat)
    requires Forked(s, t, r, c)
    ensures t.cr3 == s.cr3 && t.khalf == s.khalf && t.hold == s.hold
    ensures forall v :: v in t.tlb ==>
      v in s.tlb && t.tlb[v] == s.tlb[v] && v != STACK
      && (TEXT <= v < STACK ==> K0(r, v) !in s.ent)
  {
    hide K0, K1, K2, K3, Missing, Inv, DataKept, Regions, StackF, Forked, TableKeys, OtherAt, ChildAt;
    var a, u := ForkParts(s, t, r, c);
    StackCopied(u, r, c);
    forall v | v in t.tlb && TEXT <= v < STACK ensures K0(r, v) !in s.ent {
      assert K0(r, v) !in a.ent;
    }
  }

  /** The exact cost of fork, and that nothing is left half-counted. */
  lemma ForkCost(s: Vm, t: Vm, r: nat, c: nat)
    requires Forked(s, t, r, c)
    ensures Inv(s) && Inv(t) && t.hold == s.hold && DataKept(s, t) && t.cr3 == s.cr3 && t.khalf == s.khalf
    ensures |t.free| == |s.free| - (4 + |Regions(s.ent, r)|)
    ensures Space(t, c) && forall k :: k in s.ent ==> k.root != c
    ensures forall v :: v in t.tlb ==>
      v in s.tlb && t.tlb[v] == s.tlb[v] && v != STACK
      && (TEXT <= v < STACK ==> K0(r, v) !in s.ent)
  {
    hide K0, K1, K2, K3, Missing, Inv, DataKept, Regions, StackF, Forked, TableKeys, Shared, GrownBy;
    var a, u := ForkParts(s, t, r, c);
    ForkFrees(s, t, r, c);
    ForkDropsTlb(s, t, r, c);
  }

  /** Outside the child, fork changes flags of the parent's pages and nothing else. */
  lemma ForkOther(s: Vm, t: Vm, r: nat, c: nat, k: Key)
    requires Forked(s, t, r, c) && k.root != c
    ensures k in t.ent <==> k in s.ent
    ensures k in s.ent ==> t.ent[k] == ShareWord(s.ent, r, TEXT, STACK, k)
  {
    hide K1, K2, K3, Missing, Inv, ForkF, DataKept, Forkable, Grown, OtherAt;
    var a, u := ForkParts(s, t, r, c);
    assert OtherAt(a.ent, u.ent, r, c, TEXT, STACK, k);
    OtherKept(s.ent, a.ent, u.ent, t.ent, r, c, k);
  }

  lemma OtherKept(s: map<Key, nat>, a: map<Key, nat>, u: map<Key, nat>, t: map<Key, nat>,
                  r: nat, c: nat, k: Key)
    requires k.root != c && a == s[K4(c) := Entry(c, 0)]
    requires OtherAt(a, u, r, c, TEXT, STACK, k)
    requires Grown(u, t - {K0(c, STACK)}, c, STACK)
    ensures k in t <==> k in s
    ensures k in s ==> t[k] == ShareWord(s, r, TEXT, STACK, k)
  {
    hide FrameOf, Entry;
    assert k in t <==> k in t - {K0(c, STACK)};
  }

  /** The child maps the parent's window pages: shared read-only, the stack its own. */
  lemma ForkChild(s: Vm, t: Vm, r: nat, c: nat, v: nat)
    requires Forked(s, t, r, c)
    ensures K0(c, v) in t.ent <==> InWindow(v) && K0(r, v) in s.ent
    ensures K0(c, v) in t.ent && v != STACK ==>
      t.ent[K0(c, v)] == Entry(FrameOf(s.ent[K0(r, v)]), UPC)
    ensures K0(c, v) in t.ent && v == STACK ==>
      exists g :: t.ent[K0(c, v)] == Entry(g, UWP)
  {
    hide K1, K2, K3, Missing, Inv, ForkF, DataKept, Forkable;
    var a, u := ForkParts(s, t, r, c);
    assert ChildAt(a.ent, u.ent, r, c, TEXT, STACK, v);
    assert v != STACK ==> (K0(c, v) in t.ent <==> K0(c, v) in t.ent - {K0(c, STACK)});
  }

  /** No other entry names the frame of the child's stack page. */
  lemma ForkStackPrivate(s: Vm, t: Vm, r: nat, c: nat, k: Key)
    requires Forked(s, t, r, c) && k in t.ent && K0(c, STACK) in t.ent
    requires FrameOf(t.ent[k]) == FrameOf(t.ent[K0(c, STACK)])
    ensures k == K0(c, STACK)
  {
    hide K1, K2, K3, Missing, ForkF, Forkable;
    var a, u := ForkParts(s, t, r, c);
    EntryParts(u.free[0], UWP);
    AllocInv(u, true);
    RefsEmpty(u, u.free[0]);
    assert NamedAt(t, k) && NamedAt(t, K0(c, STACK));
    assert k != K0(c, STACK) ==> k in t.ent - {K0(c, STACK)};
  }

  /** The child's nodes are confined to the window. */
  lemma ForkConfined(s: Vm, t: Vm, r: nat, c: nat, k: Key)
    requires Forked(s, t, r, c) && k in t.ent && k.root == c
    ensures Confined(k)
  {
    hide K1, K2, K3, Missing, ForkF, Forkable, Inv, Confined, TableKeys, DataKept, ChildAt, OtherAt;
    var a, u := ForkParts(s, t, r, c);
    RootOf(t, k);
    if k.level == 0 {
      assert k == K0(c, k.p);
      ForkChild(s, t, r, c, k.p);
      ConfinedLeaf(k);
    } else if k.level == 4 {
      ConfinedRoot(t, k);
    } else {
      assert k in t.ent - {K0(c, STACK)};
      StackConfined(c);
      if k in u.ent {
        TablesConfined(a, u, r, c, k);
      }
    }
  }

  lemma ConfinedLeaf(k: Key)
    requires k.level == 0 && InWindow(k.p)
    ensures Confined(k)
  {
  }

  lemma ConfinedRoot(s: Vm, k: Key)
    requires Inv(s) && k in s.ent && k.level == 4
    ensures Confined(k)
  {
    assert NamedAt(s, k);
  }

  lemma StackConfined(c: nat)
    ensures Confined(K1(c, STACK)) && Confined(K2(c, STACK)) && Confined(K3(c, STACK))
  {
    WindowDigits(STACK);
  }

  lemma TablesConfined(a: Vm, u: Vm, r: nat, c: nat, k: Key)
    requires Inv(a) && Shared(a, u, r, c, TEXT, STACK)
    requires k in u.ent && k.root == c && 1 <= k.level <= 3
    ensures Confined(k)
  {
    hide K1, K2, K3, Inv, Sized;
    assert k in TableKeys(u.ent, c);
    ForkTablesStep(a.ent, r, c, TEXT, STACK);
    ForkTableIn(a.ent, r, c, k);
    RegionsConfined(a.ent, r, k.p);
  }

  lemma RegionsConfined(ent: map<Key, nat>, r: nat, p: nat)
    ensures p in Regions(ent, r) ==> 1024 <= p < 1152
  {
    if p in Regions(ent, r) {
      var v :| TEXT <= v < TOP && K0(r, v) in ent && p == Up(v);
      WindowDigits(v);
    }
  }

  /** fork changes what no page of an existing address space reads. */
  lemma ForkKeepsPages(s: Vm, t: Vm, r: nat, c: nat, k: Key)
    requires Forked(s, t, r, c) && k.level == 0 && k.root != c
    ensures Inv(t) && PageAt(t, k) == PageAt(s, k)
  {
    hide ForkF, Regions, Inv, DataKept, Forkable;
    ForkCost(s, t, r, c);
    ForkOther(s, t, r, c, k);
    if k in s.ent { EntryParts(FrameOf(s.ent[k]), UPC); }
    PageSame(s, t, k);
  }

  /** In the window the child reads exactly what the parent reads. */
  lemma ForkCopiesPages(s: Vm, t: Vm, r: nat, c: nat, v: nat)
    requires Forked(s, t, r, c) && InWindow(v)
    ensures Inv(t) && PageAt(t, K0(c, v)) == PageAt(s, K0(r, v))
  {
    hide K1, K2, K3, Missing, ForkF, Regions, Forkable, Inv, DataKept, PageAt;
    var a, u := ForkParts(s, t, r, c);
    ForkChild(s, t, r, c, v);
    if v == STACK {
      EntryParts(FrameOf(s.ent[K0(r, v)]), UPC);
      assert OtherAt(a.ent, u.ent, r, c, TEXT, STACK, K0(r, v));
      PageSame(s, a, K0(r, v));
      PageSame(a, u, K0(r, v));
    } else {
      if K0(r, v) in s.ent { EntryParts(FrameOf(s.ent[K0(r, v)]), UPC); }
      AliasReads(s, t, K0(r, v), K0(c, v));
    }
  }

  /** Two pages of two states that name the same kept frame read the same. */
  lemma AliasReads(s: Vm, t: Vm, k: Key, k': Key)
    requires Inv(s) && Inv(t) && DataKept(s, t) && k.level == 0 && k'.level == 0
    requires k in s.ent <==> k' in t.ent
    requires k in s.ent ==> FrameOf(t.ent[k']) == FrameOf(s.ent[k])
    ensures PageAt(t, k') == PageAt(s, k)
  {
    assert k in s.ent ==> NamedAt(s, k);
  }
}
