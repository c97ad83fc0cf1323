/** The invariant of user mappings between traps: every page entry is either
    private and writable or shared and read-only, and lies in the window. */
module UserPages {
  import opened Words
  import opened Vm
  import opened PageTable
  import opened AddressSpace
  import opened Fork
  import opened Teardown

  /** No entry but k's names the frame of k. */
  ghost predicate PrivateAt(s: Vm, k: Key)
    requires k in s.ent
  {
    forall k' :: k' in s.ent && FrameOf(s.ent[k']) == FrameOf(s.ent[k]) ==> k' == k
  }

  /** A page word is U|W|P or, after fork, U|P|COW. */
  predicate PageWord(w: nat) {
    w == Entry(FrameOf(w), UWP) || w == Entry(FrameOf(w), UPC)
  }

  ghost predicate PageOk(s: Vm, k: Key)
    requires k in s.ent
  {
    && Confined(k)
    && (k.level == 0 ==>
          && PageWord(s.ent[k])
          && FrameOf(s.ent[k]) < |s.hold| && s.hold[FrameOf(s.ent[k])] == 0
          && (Writable(s.ent[k]) ==> PrivateAt(s, k)))
  }

  /** Between traps: counts exact, nodes confined, writable means private. */
  ghost predicate UserOk(s: Vm) {
    Inv(s) && Settled(s) && forall k {:trigger PageOk(s, k)} :: k in s.ent ==> PageOk(s, k)
  }

  /** Writable means private, in the allocator's terms: exactly one reference. */
  lemma WritableMeansPrivate(s: Vm, k: Key)
    requires UserOk(s) && k in s.ent && k.level == 0 && Writable(s.ent[k])
    ensures FrameOf(s.ent[k]) < |s.mem| && s.count[FrameOf(s.ent[k])] == 1
    ensures Refs(s.ent, FrameOf(s.ent[k])) == {k}
  {
    assert PageOk(s, k) && NamedAt(s, k) && CountAt(s, FrameOf(s.ent[k]));
    assert Refs(s.ent, FrameOf(s.ent[k])) == {k};
  }

  // ----------------------------------------------------- each step keeps it

  /** References that the kernel holds stay; to frames that were free it may hold more. */
  ghost predicate HoldKept(s: Vm, t: Vm)
    requires Sized(s) && Sized(t)
  {
    && |t.mem| == |s.mem|
    && forall f {:trigger t.hold[f]} :: 0 <= f < |s.mem| ==>
         if s.role[f].Free? then t.hold[f] >= 0 else t.hold[f] == s.hold[f]
  }

  lemma FreeHold(s: Vm, f: nat)
    requires Inv(s) && f < |s.mem| && s.role[f].Free?
    ensures s.hold[f] == 0
  {
    hide FreeExact, TablesStored, KernelShared, Closed;
    RefsEmpty(s, f);
    assert RoleAt(s, f) && CountAt(s, f);
  }

  /** The frame a fault takes from the free list was named by no entry. */
  lemma FreshUnnamed(s: Vm, k: Key)
    requires Inv(s) && s.free != [] && k in s.ent
    ensures FrameOf(s.ent[k]) != s.free[0]
  {
    AllocInv(s, true);
    RefsEmpty(s, s.free[0]);
  }

  /** A Data frame is named by no table's entry. */
  lemma NotATable(s: Vm, k: Key, k': Key)
    requires Inv(s) && k in s.ent && k' in s.ent && k.level == 0
    requires FrameOf(s.ent[k']) == FrameOf(s.ent[k])
    ensures k'.level == 0
  {
    assert NamedAt(s, k) && NamedAt(s, k');
  }

  lemma ZeroOk(s: Vm, r: nat, v: nat)
    requires UserOk(s) && Space(s, r) && InWindow(v) && Lower(v) && K0(r, v) !in s.ent
    requires |s.free| >= 1 + Missing(s.ent, r, v)
    ensures UserOk(ZeroF(s, r, v))
  {
    hide K1, K2, K3, Missing, Inv, Confined;
    var t := ZeroF(s, r, v);
    assert Settled(t);
    forall k | k in t.ent ensures PageOk(t, k) {
      ZeroPageOk(s, t, r, v, k);
    }
  }

  lemma ZeroPageOk(s: Vm, t: Vm, r: nat, v: nat, k: Key)
    requires UserOk(s) && Space(s, r) && InWindow(v) && Lower(v) && K0(r, v) !in s.ent
    requires |s.free| >= 1 + Missing(s.ent, r, v) && t == ZeroF(s, r, v) && k in t.ent
    ensures PageOk(t, k)
  {
    AllocInv(s, true);
    forall f | 0 <= f < |s.mem| && s.role[f].Free? ensures s.hold[f] == 0 { FreeHold(s, f); }
    FreshPageOk(s, t, r, v, k);
  }

  /** A page newly mapped to the frame at the head of the free list is private. */
  lemma FreshPageOk(s: Vm, t: Vm, r: nat, v: nat, k: Key)
    requires UserOk(s) && InWindow(v) && K0(r, v) !in s.ent && s.free != []
    requires Inv(t) && HoldKept(s, t) && k in t.ent && s.free[0] < |t.hold| && t.hold[s.free[0]] == 0
    requires K0(r, v) in t.ent && t.ent[K0(r, v)] == Entry(s.free[0], UWP)
    requires Grown(s.ent, t.ent - {K0(r, v)}, r, v)
    ensures PageOk(t, k)
  {
    hide K1, K2, K3;
    var n := K0(r, v);
    EntryParts(s.free[0], UWP);
    assert NamedAt(t, k) && NamedAt(t, n);
    WindowConfined(r, v);
    if k != n { assert k in t.ent - {n}; }
    if k in s.ent {
      assert PageOk(s, k) && NamedAt(s, k);
      FreshUnnamed(s, k);
    }
    if k.level == 0 {
      forall k' | k' in t.ent && FrameOf(t.ent[k']) == FrameOf(t.ent[k])
        ensures k' == k || (k != n && k' in s.ent && FrameOf(s.ent[k']) == FrameOf(s.ent[k]))
      {
        NotATable(t, k, k');
        if k' != n { assert k' in t.ent - {n}; FreshUnnamed(s, k'); }
      }
      AllocInv(s, true);
    }
  }

  lemma WindowConfined(r: nat, v: nat)
    requires InWindow(v)
    ensures Confined(K0(r, v)) && Confined(K1(r, v)) && Confined(K2(r, v)) && Confined(K3(r, v))
  {
    WindowDigits(v);
  }

  lemma CowOk(s: Vm, r: nat, v: nat)
    requires UserOk(s) && Space(s, r) && InWindow(v) && Lower(v) && K0(r, v) in s.ent && s.free != []
    requires NamedAt(s, K0(r, v)) && s.hold[FrameOf(s.ent[K0(r, v)])] >= 0
    ensures UserOk(CowF(s, r, v))
  {
    hide Inv, CowF, Confined;
    var t, n := CowF(s, r, v), K0(r, v);
    assert Settled(t);
    EntryParts(s.free[0], UWP);
    forall k | k in t.ent ensures PageOk(t, k) {
      CowPageOk(s, t, r, v, k);
    }
  }

  lemma CowPageOk(s: Vm, t: Vm, r: nat, v: nat, k: Key)
    requires UserOk(s) && Inv(t) && s.free != [] && K0(r, v) in s.ent && k in t.ent
    requires t.ent == s.ent[K0(r, v) := Entry(s.free[0], UWP)] && t.hold == s.hold
    ensures PageOk(t, k)
  {
    hide K1, K2, K3;
    var n := K0(r, v);
    EntryParts(s.free[0], UWP);
    assert PageOk(s, k) && NamedAt(s, k) && NamedAt(t, k);
    FreshUnnamed(s, k);
    AllocInv(s, true);
    forall k' | k' in t.ent && FrameOf(t.ent[k']) == FrameOf(t.ent[k])
      ensures k' == k || (k != n && k' in s.ent && FrameOf(s.ent[k']) == FrameOf(s.ent[k]))
    {
      if k' != n { FreshUnnamed(s, k'); }
    }
  }

  lemma ForkOk(s: Vm, t: Vm, r: nat, c: nat)
    requires UserOk(s) && Forked(s, t, r, c)
    ensures UserOk(t)
  {
    hide ForkF, Forkable, Inv, DataKept, Confined, Regions;
    ForkCost(s, t, r, c);
    assert Settled(t);
    forall k | k in t.ent ensures PageOk(t, k) {
      if k.root == c {
        ForkedChildOk(s, t, r, c, k);
      } else {
        ForkedOtherOk(s, t, r, c, k);
      }
    }
  }

  lemma ForkedOtherOk(s: Vm, t: Vm, r: nat, c: nat, k: Key)
    requires UserOk(s) && Inv(t) && Forked(s, t, r, c) && t.hold == s.hold
    requires k in t.ent && k.root != c
    ensures PageOk(t, k)
  {
    hide Forked, Inv, Confined, PageWord;
    ForkOther(s, t, r, c, k);
    assert PageOk(s, k);
    EntryParts(FrameOf(s.ent[k]), UPC);
    FlagsAre(FrameOf(s.ent[k]));
    if k.level == 0 && Writable(t.ent[k]) {
      forall k' | k' in t.ent && FrameOf(t.ent[k']) == FrameOf(t.ent[k]) ensures k' == k {
        ForkedSharers(s, t, r, c, k, k');
      }
    }
  }

  lemma FlagsAre(f: nat)
    ensures PageWord(Entry(f, UPC)) && PageWord(Entry(f, UWP))
    ensures !Writable(Entry(f, UPC)) && Writable(Entry(f, UWP))
  {
    EntryParts(f, UPC);
    EntryParts(f, UWP);
  }

  /** After fork, only the page itself names the frame of a page left writable. */
  lemma ForkedSharers(s: Vm, t: Vm, r: nat, c: nat, k: Key, k': Key)
    requires UserOk(s) && Inv(t) && Forked(s, t, r, c)
    requires k in t.ent && k.root != c && k.level == 0 && Writable(t.ent[k])
    requires k' in t.ent && FrameOf(t.ent[k']) == FrameOf(t.ent[k])
    ensures k' == k
  {
    hide Forked, Inv, Confined, PageWord;
    NotATable(t, k, k');
    ForkOther(s, t, r, c, k);
    FlagsAre(FrameOf(s.ent[k]));
    EntryParts(FrameOf(s.ent[k]), UPC);
    assert PageOk(s, k);
    if k'.root != c {
      ForkOther(s, t, r, c, k');
      EntryParts(FrameOf(s.ent[k']), UPC);
    } else {
      var v := k'.p;
      assert k' == K0(c, v);
      ForkChild(s, t, r, c, v);
      if v == STACK {
        ForkStackPrivate(s, t, r, c, k);
      } else {
        EntryParts(FrameOf(s.ent[K0(r, v)]), UPC);
      }
    }
  }

  lemma ForkedChildOk(s: Vm, t: Vm, r: nat, c: nat, k: Key)
    requires UserOk(s) && Inv(t) && Forked(s, t, r, c) && t.hold == s.hold
    requires k in t.ent && k.root == c
    ensures PageOk(t, k)
  {
    hide Forked, Inv, Confined, PageWord;
    ForkConfined(s, t, r, c, k);
    if k.level == 0 {
      assert k == K0(c, k.p);
      ForkChild(s, t, r, c, k.p);
      if k.p == STACK {
        var g :| t.ent[k] == Entry(g, UWP);
        FlagsAre(g);
        ForkStackHold(s, t, r, c);
        forall k' | k' in t.ent && FrameOf(t.ent[k']) == FrameOf(t.ent[k]) ensures k' == k {
          ForkStackPrivate(s, t, r, c, k');
        }
      } else {
        assert PageOk(s, K0(r, k.p));
        EntryParts(FrameOf(s.ent[K0(r, k.p)]), UPC);
        FlagsAre(FrameOf(s.ent[K0(r, k.p)]));
      }
    }
  }

  lemma ForkStackHold(s: Vm, t: Vm, r: nat, c: nat)
    requires Forked(s, t, r, c)
    ensures K0(c, STACK) in t.ent && FrameOf(t.ent[K0(c, STACK)]) < |t.hold|
    ensures t.hold[FrameOf(t.ent[K0(c, STACK)])] == 0
  {
    hide K1, K2, K3, Missing, ForkF, Forkable, DataKept;
    var a, u := ForkParts(s, t, r, c);
    EntryParts(u.free[0], UWP);
    AllocInv(u, true);
    ForkCost(s, t, r, c);
  }

  lemma DestroyOk(s: Vm, r: nat)
    requires UserOk(s) && Space(s, r)
    ensures Destroyable(s, r) && UserOk(DestroyF(s, r))
  {
    hide Inv, Confined, PageWord, MemKept, TlbCleared;
    forall k | k in s.ent && k.root == r ensures Confined(k) { assert PageOk(s, k); }
    Destroyed(s, r);
    var t := DestroyF(s, r);
    SettledSame(s, t);
    forall k | k in t.ent ensures PageOk(t, k) { assert PageOk(s, k); }
  }

  /** A store through a private page; its other words and all other pages stay. */
  lemma FillOk(s: Vm, k: Key, data: Frame)
    requires UserOk(s) && k in s.ent && k.level == 0 && Writable(s.ent[k])
    ensures FrameOf(s.ent[k]) < |s.mem| && Inv(FillF(s, FrameOf(s.ent[k]), data))
    ensures UserOk(FillF(s, FrameOf(s.ent[k]), data))
    ensures PageAt(FillF(s, FrameOf(s.ent[k]), data), k) == data
    ensures forall k': Key {:trigger PageAt(s, k')} :: k'.level == 0 && k' != k ==>
      PageAt(FillF(s, FrameOf(s.ent[k]), data), k') == PageAt(s, k')
  {
    assert NamedAt(s, k) && PageOk(s, k);
    var f := FrameOf(s.ent[k]);
    FillInv(s, f, data);
    var t := FillF(s, f, data);
    forall k' | k' in t.ent ensures PageOk(t, k') { assert PageOk(s, k'); }
    forall k': Key | k'.level == 0 && k' != k ensures PageAt(t, k') == PageAt(s, k') {
      assert k' in s.ent ==> NamedAt(s, k');
    }
  }
}
