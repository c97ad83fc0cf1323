/** Filling an address space: pages mapped one by one to fresh frames, in a window that
    was cleared as exec does or in a new address space. */
module ExecSpace {
  import opened Words
  import opened Vm
  import opened PageTable
  import opened AddressSpace
  import opened Fork
  import opened Teardown
  import opened UserPages
  import opened System
  import opened Kept

  /** A page can be mapped, and n blocks read to fill it. */
  ghost predicate Mappable(s: Vm, r: nat, v: nat, n: nat) {
    Inv(s) && Space(s, r) && Lower(v) && K0(r, v) !in s.ent && |s.free| >= 1 + n + Missing(s.ent, r, v)
  }

  /** alloc_page, fill the frame with d, insert_page with U|W|P; of the blocks read to
      fill it each stays in a frame of its own. */
  ghost function PageInF(s: Vm, r: nat, v: nat, d: Frame, kept: seq<Frame>): (t: Vm)
    requires Inv(s) && Space(s, r) && Lower(v) && K0(r, v) !in s.ent
    requires |s.free| >= 1 + |kept| + Missing(s.ent, r, v)
    ensures Inv(t) && DataKept(s, t) && HoldKept(s, t)
    ensures K0(r, v) in t.ent && t.ent[K0(r, v)] == Entry(s.free[0], UWP)
    ensures s.free[0] < |t.mem| == |t.hold| && t.mem[s.free[0]] == d && t.hold[s.free[0]] == 0
    ensures Grown(s.ent, t.ent - {K0(r, v)}, r, v)
    ensures K1(r, v) in t.ent && K2(r, v) in t.ent && K3(r, v) in t.ent
    ensures t.tlb == s.tlb - {v} && t.cr3 == s.cr3 && t.khalf == s.khalf
    ensures |t.free| == |s.free| - 1 - |kept| - Missing(s.ent, r, v)
  {
    PageInReady(s, r, v, d, kept);
    PageInKeeps(s, r, v, d, kept);
    InsertF(ReadInF(s, d, kept), r, v, s.free[0], UWP)
  }

  lemma PageInReady(s: Vm, r: nat, v: nat, d: Frame, kept: seq<Frame>)
    requires Inv(s) && Space(s, r) && Lower(v) && K0(r, v) !in s.ent
    requires |s.free| >= 1 + |kept| + Missing(s.ent, r, v)
    ensures s.free[0] < |s.mem|
    ensures var b := ReadInF(s, d, kept);
      && Inv(b) && Space(b, r) && DataKept(s, b) && |b.free| >= Missing(b.ent, r, v)
      && b.role[s.free[0]].Data? && K0(r, v) !in b.ent && b.ent == s.ent
      && |b.free| == |s.free| - 1 - |kept| && b.tlb == s.tlb && b.cr3 == s.cr3 && b.khalf == s.khalf
  {
    hide K1, K2, K3, Missing, Inv, FreeKept, HoldKept;
    FirstFree(s);
    SizedAll(s);
    SizedAll(ReadInF(s, d, kept));
  }

  lemma PageInKeeps(s: Vm, r: nat, v: nat, d: Frame, kept: seq<Frame>)
    requires Inv(s) && Space(s, r) && Lower(v) && K0(r, v) !in s.ent
    requires |s.free| >= 1 + |kept| + Missing(s.ent, r, v)
    ensures s.free[0] < |s.mem| && Inv(ReadInF(s, d, kept)) && Space(ReadInF(s, d, kept), r)
    ensures ReadInF(s, d, kept).role[s.free[0]].Data? && ReadInF(s, d, kept).ent == s.ent
    ensures |ReadInF(s, d, kept).free| == |s.free| - 1 - |kept|
    ensures var t := InsertF(ReadInF(s, d, kept), r, v, s.free[0], UWP);
      DataKept(s, t) && HoldKept(s, t) && t.mem[s.free[0]] == d && t.hold[s.free[0]] == 0
  {
    hide K0, K1, K2, K3, Missing, Grown, Inv, FreeKept, HoldKept, DataKept;
    PageInReady(s, r, v, d, kept);
    var b := ReadInF(s, d, kept);
    FirstFree(s);
    SizedAll(s);
    SizedAll(b);
    SizedAll(InsertF(b, r, v, s.free[0], UWP));
    GivenUp(s, b, InsertF(b, r, v, s.free[0], UWP), s.free[0]);
  }

  /** The kernel's reference to a frame that was free turns into an entry. */
  lemma GivenUp(s: Vm, b: Vm, t: Vm, f: nat)
    requires Sized(s) && Sized(b) && Sized(t) && DataKept(s, b) && HoldKept(s, b) && DataKept(b, t)
    requires f < |s.mem| && s.role[f].Free? && b.role[f].Data? && b.hold[f] == 1 && t.hold == b.hold[f := 0]
    ensures DataKept(s, t) && HoldKept(s, t) && t.mem[f] == b.mem[f] && t.hold[f] == 0
  {
  }

  /** alloc_page(1) hands out a frame that is already filled with zeros. */
  lemma ZeroAlloc(s: Vm)
    requires Inv(s) && s.free != []
    ensures s.free[0] < |s.mem|
    ensures AllocF(s, true) == FillF(AllocF(s, false), s.free[0], ZeroFrame())
  {
  }

  ghost predicate PageIs(t: Vm, r: nat, pages: map<nat, Frame>, v: nat)
    requires Inv(t)
  {
    && (K0(r, v) in t.ent <==> v in pages)
    && (v in pages ==> PageAt(t, K0(r, v)) == pages[v])
  }

  ghost predicate ForeignAt(s: Vm, t: Vm, r: nat, k: Key)
    requires Inv(s) && Inv(t)
  {
    k.root != r ==>
      && (k in t.ent <==> k in s.ent) && (k in s.ent ==> t.ent[k] == s.ent[k])
      && (k.level == 0 ==> PageAt(t, k) == PageAt(s, k))
  }

  /** The window of address space r holds exactly these pages; every other address
      space is as it was in s. */
  ghost predicate Mapped(s: Vm, t: Vm, r: nat, pages: map<nat, Frame>) {
    && Inv(s) && UserOk(t) && Space(t, r) && t.cr3 == s.cr3
    && (forall v: nat {:trigger PageIs(t, r, pages, v)} :: InWindow(v) ==> PageIs(t, r, pages, v))
    && (forall k: Key {:trigger ForeignAt(s, t, r, k)} :: ForeignAt(s, t, r, k))
    && (forall v :: v in pages ==> InWindow(v))
  }

  lemma PageInOk(s: Vm, r: nat, v: nat, d: Frame, kept: seq<Frame>)
    requires UserOk(s) && Space(s, r) && InWindow(v) && Lower(v) && K0(r, v) !in s.ent
    requires |s.free| >= 1 + |kept| + Missing(s.ent, r, v)
    ensures UserOk(PageInF(s, r, v, d, kept))
  {
    hide K1, K2, K3, Missing, Inv, Confined, PageInF;
    var t := PageInF(s, r, v, d, kept);
    SizedAll(s);
    SizedAll(t);
    assert Settled(t);
    forall k | k in t.ent ensures PageOk(t, k) { FreshPageOk(s, t, r, v, k); }
  }

  /** Mapping one more page changes that page of that address space alone. */
  lemma PageInPages(s: Vm, r: nat, v: nat, d: Frame, kept: seq<Frame>, k: Key)
    requires Inv(s) && Space(s, r) && Lower(v) && K0(r, v) !in s.ent
    requires |s.free| >= 1 + |kept| + Missing(s.ent, r, v) && k.level == 0
    ensures var t := PageInF(s, r, v, d, kept);
      && (k in t.ent <==> k in s.ent || k == K0(r, v))
      && PageAt(t, k) == if k == K0(r, v) then d else PageAt(s, k)
  {
    hide K1, K2, K3, Missing, PageInF;
    var t, n := PageInF(s, r, v, d, kept), K0(r, v);
    EntryParts(s.free[0], UWP);
    if k != n {
      assert k in t.ent <==> k in t.ent - {n};
      PageSame(s, t, k);
    }
  }

  lemma PageInOther(s: Vm, t: Vm, r: nat, v: nat, d: Frame, kept: seq<Frame>, k: Key)
    requires Inv(s) && Space(s, r) && Lower(v) && K0(r, v) !in s.ent
    requires |s.free| >= 1 + |kept| + Missing(s.ent, r, v) && t == PageInF(s, r, v, d, kept)
    ensures ForeignAt(s, t, r, k)
  {
    if k.level == 0 { PageInPages(s, r, v, d, kept, k); }
    hide K1, K2, K3, Missing, PageInF;
    if k.root != r { assert k in t.ent <==> k in t.ent - {K0(r, v)}; }
  }

  lemma PageMore(t: Vm, u: Vm, r: nat, pages: map<nat, Frame>, v: nat, d: Frame, kept: seq<Frame>, w: nat)
    requires Inv(t) && Space(t, r) && Lower(v) && K0(r, v) !in t.ent && |t.free| >= 1 + |kept| + Missing(t.ent, r, v)
    requires u == PageInF(t, r, v, d, kept) && PageIs(t, r, pages, w)
    ensures PageIs(u, r, pages[v := d], w)
  {
    hide Inv, K1, K2, K3, Missing, PageInF, PageAt;
    PageInPages(t, r, v, d, kept, K0(r, w));
  }

  lemma OtherMore(s: Vm, t: Vm, u: Vm, r: nat, v: nat, d: Frame, kept: seq<Frame>, k: Key)
    requires Inv(s) && Inv(t)
    requires Space(t, r) && Lower(v) && K0(r, v) !in t.ent && |t.free| >= 1 + |kept| + Missing(t.ent, r, v)
    requires u == PageInF(t, r, v, d, kept) && ForeignAt(s, t, r, k)
    ensures ForeignAt(s, u, r, k)
  {
    hide Inv, K0, K1, K2, K3, Missing, PageInF, PageAt;
    PageInOther(t, u, r, v, d, kept, k);
  }

  /** Page by page the window fills as described. */
  lemma MappedMore(s: Vm, t: Vm, u: Vm, r: nat, pages: map<nat, Frame>, v: nat, d: Frame, kept: seq<Frame>)
    requires Mapped(s, t, r, pages) && InWindow(v) && v !in pages && Lower(v)
    requires K0(r, v) !in t.ent && |t.free| >= 1 + |kept| + Missing(t.ent, r, v) && u == PageInF(t, r, v, d, kept)
    ensures Mapped(s, u, r, pages[v := d])
  {
    assert Inv(t) && Inv(u) && Inv(s);
    PageInOk(t, r, v, d, kept);
    PageInSpace(t, u, r, v, d, kept);
    assert u.cr3 == t.cr3;
    hide Inv, K0, K1, K2, K3, Missing, PageInF, UserOk, Grown, PageAt, PageIs, ForeignAt;
    var more := pages[v := d];
    forall w: nat | InWindow(w) ensures PageIs(u, r, more, w) { PageMore(t, u, r, pages, v, d, kept, w); }
    forall k: Key ensures ForeignAt(s, u, r, k) { OtherMore(s, t, u, r, v, d, kept, k); }
  }

  lemma PageInSpace(s: Vm, t: Vm, r: nat, v: nat, d: Frame, kept: seq<Frame>)
    requires Inv(s) && Space(s, r) && Lower(v) && K0(r, v) !in s.ent
    requires |s.free| >= 1 + |kept| + Missing(s.ent, r, v) && t == PageInF(s, r, v, d, kept)
    ensures Space(t, r)
  {
    hide K1, K2, K3, Missing, PageInF;
    assert K4(r) in t.ent - {K0(r, v)};
  }

  // ----------------------------------------------------- clearing the window

  lemma RemovedOk(s: Vm, t: Vm, r: nat)
    requires UserOk(s) && Cleared(s, t, r, 0, TEXT, TOP)
    ensures UserOk(t)
  {
    hide Inv, MemKept;
    assert Settled(t);
    forall k | k in t.ent ensures PageOk(t, k) {
      assert PageOk(s, k) && t.ent[k] == s.ent[k];
    }
  }

  lemma ClearedOther(s: Vm, t: Vm, r: nat, k: Key)
    requires Inv(s) && Cleared(s, t, r, 0, TEXT, TOP)
    ensures ForeignAt(s, t, r, k)
  {
    if k.root != r && k.level == 0 && k in s.ent { assert NamedAt(s, k); }
  }

  /** Every window page is gone, and nothing else of any address space. */
  lemma MappedStart(s: Vm, t: Vm, r: nat)
    requires UserOk(s) && Space(s, r) && Cleared(s, t, r, 0, TEXT, TOP)
    ensures Mapped(s, t, r, map[])
  {
    RemovedOk(s, t, r);
    assert Inv(s) && Inv(t);
    hide UserOk, Inv, PageAt, MemKept;
    forall k: Key ensures ForeignAt(s, t, r, k) { ClearedOther(s, t, r, k); }
    assert Space(t, r);
  }

  /** No translation stays cached: all were of window pages. */
  lemma NothingCached(s: Vm, t: Vm)
    requires UserOk(s) && Coherent(s) && TlbCleared(s, t, s.cr3, TEXT, TOP)
    ensures t.tlb == map[]
  {
    forall v | v in t.tlb ensures false {
      assert PageOk(s, K0(s.cr3, v));
      TablesAbove(s, s.cr3, v);
    }
  }

  // ------------------------------------------------------- frames still free

  lemma EnsureFree(s: Vm, k: Key)
    requires Inv(s) && 1 <= k.level < 4 && Parent(k) in s.ent
    requires k.level == 3 ==> k.p < 256
    requires k in s.ent || s.free != []
    ensures FreeKept(s, EnsureF(s, k))
  {
    if k !in s.ent {
      AllocInv(s, true);
      EntryParts(s.free[0], UWP);
      assert NamedAt(s, Parent(k));
    }
  }

  lemma WalkFree(s: Vm, k1: Key, k2: Key, k3: Key)
    requires Inv(s) && Chain(k1, k2, k3) && Parent(k3) in s.ent
    requires (k1 in s.ent ==> k2 in s.ent) && (k2 in s.ent ==> k3 in s.ent)
    requires |s.free| >= Absent(s.ent, k1) + Absent(s.ent, k2) + Absent(s.ent, k3)
    ensures FreeKept(s, EnsurePathF(s, k1, k2, k3))
  {
    hide Inv, DataKept, FreeKept, EnsureF;
    assert Inv(s);
    var t3 := EnsureF(s, k3);
    var t2 := EnsureF(t3, k2);
    var t1 := EnsureF(t2, k1);
    EnsureFree(s, k3);
    EnsureFree(t3, k2);
    EnsureFree(t2, k1);
    SizedAll(s);
    SizedAll(t3);
    SizedAll(t2);
    SizedAll(t1);
    FreeKeptTrans(s, t3, t2);
    FreeKeptTrans(s, t2, t1);
  }

  lemma LeafFree(s: Vm, k: Key, f: nat, flags: nat)
    requires Inv(s) && k.level == 0 && Parent(k) in s.ent && k !in s.ent
    requires f < |s.mem| && s.role[f].Data? && flags < 4096 && flags % 2 == 1
    ensures FreeKept(s, LeafF(s, k, f, flags))
  {
    EntryParts(f, flags);
    assert NamedAt(s, Parent(k));
  }

  lemma InsertFree(s: Vm, r: nat, v: nat, f: nat, flags: nat)
    requires Inv(s) && Space(s, r) && Lower(v) && |s.free| >= Missing(s.ent, r, v)
    requires K0(r, v) !in s.ent && f < |s.mem| && s.role[f].Data?
    requires flags < 4096 && flags % 2 == 1
    ensures FreeKept(s, InsertF(s, r, v, f, flags))
  {
    hide Inv, DataKept, FreeKept, EnsurePathF, LeafF, Grown, K1, K2, K3, Chain;
    InsertReady(s, r, v, f, flags);
    Ancestors(r, v);
    TablesAbove(s, r, v);
    var u := WalkCreateF(s, r, v);
    WalkFree(s, K1(r, v), K2(r, v), K3(r, v));
    LeafFree(u, K0(r, v), f, flags);
    SizedAll(s);
    SizedAll(u);
    SizedAll(InsertF(s, r, v, f, flags));
    FreeKeptTrans(s, u, InsertF(s, r, v, f, flags));
  }

  /** Mapping a page leaves the frames that are still free as they are. */
  lemma PageInFree(s: Vm, r: nat, v: nat, d: Frame, kept: seq<Frame>)
    requires Inv(s) && Space(s, r) && Lower(v) && K0(r, v) !in s.ent
    requires |s.free| >= 1 + |kept| + Missing(s.ent, r, v)
    ensures FreeKept(s, PageInF(s, r, v, d, kept)) && s.free[0] < |s.mem| && s.role[s.free[0]].Free?
  {
    hide Inv, K0, K1, K2, K3, Missing, Grown, InsertF, FreeKept, HoldKept, DataKept;
    PageInReady(s, r, v, d, kept);
    FirstFree(s);
    var b := ReadInF(s, d, kept);
    InsertFree(b, r, v, s.free[0], UWP);
    SizedAll(s);
    SizedAll(b);
    SizedAll(PageInF(s, r, v, d, kept));
    FreeKeptTrans(s, b, PageInF(s, r, v, d, kept));
  }

  // -------------------------------------------------------- what pages cost

  /** The tables on the paths to the pages vs. */
  ghost function PathTables(r: nat, vs: set<nat>): set<Key> {
    (set v | v in vs :: K1(r, v)) + (set v | v in vs :: K2(r, v)) + (set v | v in vs :: K3(r, v))
  }

  /** Those that are not there yet. */
  ghost function NewTables(ent: map<Key, nat>, r: nat, vs: set<nat>): set<Key> {
    PathTables(r, vs) - TableKeys(ent, r)
  }

  /** The frames that it takes to map the pages vs: the pages and their missing tables. */
  ghost function Need(ent: map<Key, nat>, r: nat, vs: set<nat>): nat {
    |vs| + |NewTables(ent, r, vs)|
  }

  lemma NeedSame(ent: map<Key, nat>, now: map<Key, nat>, r: nat, vs: set<nat>)
    requires TableKeys(now, r) == TableKeys(ent, r)
    ensures Need(now, r, vs) == Need(ent, r, vs)
  {
  }

  lemma NeedNothing(ent: map<Key, nat>, r: nat)
    ensures Need(ent, r, {}) == 0
  {
    assert NewTables(ent, r, {}) == {};
  }

  lemma NeedMonotone(ent: map<Key, nat>, r: nat, vs: set<nat>, ws: set<nat>)
    requires vs <= ws
    ensures Need(ent, r, vs) <= Need(ent, r, ws)
  {
    hide K1, K2, K3, TableKeys;
    SubsetCard(vs, ws);
    SubsetCard(NewTables(ent, r, vs), NewTables(ent, r, ws));
  }

  lemma PathTablesMore(r: nat, vs: set<nat>, v: nat)
    ensures PathTables(r, vs + {v}) == PathTables(r, vs) + {K1(r, v), K2(r, v), K3(r, v)}
  {
    hide K1, K2, K3;
  }

  lemma NeedSplits(ent: map<Key, nat>, r: nat, vs: set<nat>)
    ensures Need(ent, r, vs) == |vs| + |TableKeys(ent, r) + PathTables(r, vs)| - |TableKeys(ent, r)|
  {
    hide PathTables, TableKeys;
    var a, b := TableKeys(ent, r), PathTables(r, vs);
    assert a + b == a + (b - a);
  }

  /** One page more costs itself and the tables that are missing now. */
  lemma NeedMore(ent: map<Key, nat>, now: map<Key, nat>, r: nat, vs: set<nat>, v: nat)
    requires v !in vs && TableKeys(now, r) == TableKeys(ent, r) + PathTables(r, vs)
    ensures Need(ent, r, vs + {v}) == Need(ent, r, vs) + 1 + Missing(now, r, v)
    ensures TableKeys(now, r) + {K1(r, v), K2(r, v), K3(r, v)} == TableKeys(ent, r) + PathTables(r, vs + {v})
  {
    hide PathTables, TableKeys, K1, K2, K3;
    var a, k1, k2, k3 := TableKeys(now, r), K1(r, v), K2(r, v), K3(r, v);
    NeedSplits(ent, r, vs);
    NeedSplits(ent, r, vs + {v});
    PathTablesMore(r, vs, v);
    PathLevels(now, r, v);
    CardAddThree(a, k1, k2, k3);
    assert a + {k1, k2, k3} == TableKeys(ent, r) + PathTables(r, vs + {v});
    assert |vs + {v}| == |vs| + 1;
  }

  lemma PathLevels(ent: map<Key, nat>, r: nat, v: nat)
    ensures K1(r, v) in TableKeys(ent, r) <==> K1(r, v) in ent
    ensures K2(r, v) in TableKeys(ent, r) <==> K2(r, v) in ent
    ensures K3(r, v) in TableKeys(ent, r) <==> K3(r, v) in ent
    ensures K1(r, v) != K2(r, v) && K2(r, v) != K3(r, v) && K1(r, v) != K3(r, v)
  {
  }

  // -------------------------------------------------------- a list of pages

  /** A page to map, its content, and the blocks that are read to fill it. */
  datatype Mapping = Mapping(v: nat, page: Frame, kept: seq<Frame>)

  /** The pages of a list, each with its content. */
  function PagesIn(plan: seq<Mapping>): map<nat, Frame> {
    if plan == [] then map[] else
      PagesIn(plan[..|plan| - 1])[plan[|plan| - 1].v := plan[|plan| - 1].page]
  }

  /** The number of blocks read to fill them. */
  function KeptIn(plan: seq<Mapping>): nat {
    if plan == [] then 0 else KeptIn(plan[..|plan| - 1]) + |plan[|plan| - 1].kept|
  }

  /** No page twice, and all in the window. */
  predicate Fits(plan: seq<Mapping>) {
    plan == []
    || (Fits(plan[..|plan| - 1]) && InWindow(plan[|plan| - 1].v)
        && plan[|plan| - 1].v !in PagesIn(plan[..|plan| - 1]))
  }

  lemma PlanMore(plan: seq<Mapping>, m: Mapping)
    ensures PagesIn(plan + [m]) == PagesIn(plan)[m.v := m.page] && KeptIn(plan + [m]) == KeptIn(plan) + |m.kept|
    ensures Fits(plan + [m]) <==> Fits(plan) && InWindow(m.v) && m.v !in PagesIn(plan)
    ensures (plan + [m])[..|plan|] == plan
  {
    assert (plan + [m])[..|plan|] == plan;
  }

  /** The pages of r are in frames that were free in s. */
  ghost predicate TakenAt(s: Vm, t: Vm, r: nat, v: nat)
    requires Sized(s)
  {
    K0(r, v) in t.ent && FrameOf(t.ent[K0(r, v)]) < |s.mem| && s.role[FrameOf(t.ent[K0(r, v)])].Free?
  }

  /** t is s with exactly these pages in address space r and n blocks read, at the exact
      cost. */
  ghost predicate Placed(s: Vm, t: Vm, r: nat, pages: map<nat, Frame>, n: nat) {
    && Mapped(s, t, r, pages) && t.khalf == s.khalf && t.tlb == s.tlb - pages.Keys
    && |s.free| == |t.free| + Need(s.ent, r, pages.Keys) + n
    && TableKeys(t.ent, r) == TableKeys(s.ent, r) + PathTables(r, pages.Keys)
    && Sized(s) && Sized(t) && FreeKept(s, t)
    && forall v {:trigger TakenAt(s, t, r, v)} :: v in pages ==> TakenAt(s, t, r, v)
  }

  /** The frames that it takes to map the pages of the list. */
  ghost function PlanCost(ent: map<Key, nat>, r: nat, plan: seq<Mapping>): nat {
    Need(ent, r, PagesIn(plan).Keys) + KeptIn(plan)
  }

  /** An address space without pages, and frames for those of the list. */
  ghost predicate Plannable(s: Vm, r: nat, plan: seq<Mapping>) {
    Mapped(s, s, r, map[]) && Fits(plan) && |s.free| >= PlanCost(s.ent, r, plan)
  }

  /** Map the pages of the list one after the other. */
  ghost function LoadF(s: Vm, r: nat, plan: seq<Mapping>): (t: Vm)
    requires Plannable(s, r, plan)
    ensures Placed(s, t, r, PagesIn(plan), KeptIn(plan))
    decreases |plan|
  {
    hide Plannable, Placed, Inv, Missing, PageInF;
    if plan == [] then PlacedStart(s, r, plan); s else
      var init, m := plan[..|plan| - 1], plan[|plan| - 1];
      PlanInit(s, r, plan);
      var u := LoadF(s, r, init);
      PlacedNext(s, u, r, plan);
      PageInF(u, r, m.v, m.page, m.kept)
  }

  lemma PlacedNext(s: Vm, t: Vm, r: nat, plan: seq<Mapping>)
    requires Plannable(s, r, plan) && plan != []
    requires Placed(s, t, r, PagesIn(plan[..|plan| - 1]), KeptIn(plan[..|plan| - 1]))
    ensures var m := plan[|plan| - 1];
      && Mappable(t, r, m.v, |m.kept|)
      && Placed(s, PageInF(t, r, m.v, m.page, m.kept), r, PagesIn(plan), KeptIn(plan))
  {
    hide Mapped, Placed, Need, PageInF;
    var init, m := plan[..|plan| - 1], plan[|plan| - 1];
    PlanInit(s, r, plan);
    PlacedReady(s, t, r, PagesIn(init), KeptIn(init), m.v, |m.kept|);
    PlacedMore(s, t, r, PagesIn(init), KeptIn(init), m.v, m.page, m.kept);
  }

  lemma PlanNothing(s: Vm, r: nat)
    requires Mapped(s, s, r, map[])
    ensures Plannable(s, r, []) && LoadF(s, r, []) == s && PagesIn([]) == map[] && KeptIn([]) == 0
  {
    hide Mapped, Need;
    NeedNothing(s.ent, r);
    assert PagesIn([]).Keys == {};
  }

  lemma PlanInit(s: Vm, r: nat, plan: seq<Mapping>)
    requires Plannable(s, r, plan) && plan != []
    ensures Plannable(s, r, plan[..|plan| - 1])
    ensures var init, m := plan[..|plan| - 1], plan[|plan| - 1];
      && m.v !in PagesIn(init) && InWindow(m.v)
      && |s.free| >= Need(s.ent, r, PagesIn(init).Keys + {m.v}) + KeptIn(init) + |m.kept|
  {
    hide Mapped, Need;
    var init, v := plan[..|plan| - 1], plan[|plan| - 1].v;
    assert PagesIn(plan).Keys == PagesIn(init).Keys + {v};
    NeedMonotone(s.ent, r, PagesIn(init).Keys, PagesIn(plan).Keys);
  }

  lemma PlacedStart(s: Vm, r: nat, plan: seq<Mapping>)
    requires Plannable(s, r, plan) && plan == []
    ensures Placed(s, s, r, PagesIn(plan), KeptIn(plan))
  {
    hide Mapped, Inv, UserOk, Need, TableKeys;
    MappedInv(s, s, r, map[]);
    NeedNothing(s.ent, r);
    var none: map<nat, Frame> := map[];
    assert none.Keys == {};
    assert PathTables(r, {}) == {};
    assert s.tlb - {} == s.tlb;
  }

  lemma MappedInv(s: Vm, t: Vm, r: nat, pages: map<nat, Frame>)
    requires Mapped(s, t, r, pages)
    ensures Inv(s) && Inv(t) && Sized(s) && Sized(t) && Space(t, r) && UserOk(t)
  {
  }

  /** The next page can be mapped. */
  lemma PlacedReady(s: Vm, t: Vm, r: nat, pages: map<nat, Frame>, n: nat, v: nat, more: nat)
    requires Placed(s, t, r, pages, n) && InWindow(v) && v !in pages
    requires |s.free| >= Need(s.ent, r, pages.Keys + {v}) + n + more
    ensures Inv(t) && Space(t, r) && Lower(v) && K0(r, v) !in t.ent && |t.free| >= 1 + more + Missing(t.ent, r, v)
  {
    MappedInv(s, t, r, pages);
    assert PageIs(t, r, pages, v);
    WindowDigits(v);
    NeedMore(s.ent, t.ent, r, pages.Keys, v);
  }

  lemma PlacedMore(s: Vm, t: Vm, r: nat, pages: map<nat, Frame>, n: nat, v: nat, d: Frame, kept: seq<Frame>)
    requires Placed(s, t, r, pages, n) && InWindow(v) && v !in pages && Lower(v) && Inv(t) && Space(t, r)
    requires K0(r, v) !in t.ent && |t.free| >= 1 + |kept| + Missing(t.ent, r, v)
    ensures Placed(s, PageInF(t, r, v, d, kept), r, pages[v := d], n + |kept|)
  {
    hide Inv, K1, K2, K3, Missing, Mapped, Need, PathTables, TableKeys, PageInF, Grown, FreeKept;
    var u, more := PageInF(t, r, v, d, kept), pages[v := d];
    MappedMore(s, t, u, r, pages, v, d, kept);
    MappedInv(s, u, r, more);
    assert more.Keys == pages.Keys + {v};
    NeedMore(s.ent, t.ent, r, pages.Keys, v);
    PathKeys(r, v);
    GrownOut(t.ent, u.ent, r, v);
    TablesGrow(t.ent, u.ent, K0(r, v), K1(r, v), K2(r, v), K3(r, v));
    PageInFree(t, r, v, d, kept);
    FreeKeptTrans(s, t, u);
    PlacedTaken(s, t, u, r, pages, n, v, d, kept);
    assert u.tlb == s.tlb - more.Keys;
  }

  lemma GrownOut(s: map<Key, nat>, t: map<Key, nat>, r: nat, v: nat)
    requires Grown(s, t - {K0(r, v)}, r, v)
    ensures GrownBy(s, t - {K0(r, v)}, K1(r, v), K2(r, v), K3(r, v))
  {
    hide K0, K1, K2, K3, GrownBy;
  }

  lemma PathKeys(r: nat, v: nat)
    ensures K1(r, v).root == r && K2(r, v).root == r && K3(r, v).root == r
    ensures K1(r, v).level == 1 && K2(r, v).level == 2 && K3(r, v).level == 3
    ensures K0(r, v).level == 0
  {
  }

  lemma PlacedTaken(s: Vm, t: Vm, u: Vm, r: nat, pages: map<nat, Frame>, n: nat, v: nat, d: Frame, kept: seq<Frame>)
    requires Placed(s, t, r, pages, n) && InWindow(v) && v !in pages && Lower(v) && Inv(t) && Space(t, r)
    requires K0(r, v) !in t.ent && |t.free| >= 1 + |kept| + Missing(t.ent, r, v) && u == PageInF(t, r, v, d, kept)
    ensures forall w {:trigger TakenAt(s, u, r, w)} :: w in pages[v := d] ==> TakenAt(s, u, r, w)
  {
    hide Inv, K1, K2, K3, Missing, Mapped, Need, PathTables, TableKeys, PageInF;
    PageInFree(t, r, v, d, kept);
    EntryParts(t.free[0], UWP);
    forall w | w in pages[v := d] ensures TakenAt(s, u, r, w) {
      if w != v {
        assert TakenAt(s, t, r, w);
        assert K0(r, w) in u.ent - {K0(r, v)};
      }
    }
  }

  /** What the frame of page v held in s. */
  ghost function Was(s: Vm, t: Vm, r: nat, v: nat): Frame
    requires Sized(s) && TakenAt(s, t, r, v)
  {
    s.mem[FrameOf(t.ent[K0(r, v)])]
  }

  /** What the frames of the pages held in s. */
  ghost function WasIn(s: Vm, t: Vm, r: nat, pages: map<nat, Frame>, n: nat): map<nat, Frame>
    requires Placed(s, t, r, pages, n)
  {
    map v | v in pages :: (assert TakenAt(s, t, r, v); Was(s, t, r, v))
  }

  /** One more page fits, and there are frames for it and n blocks. */
  ghost predicate Roomy(s: Vm, r: nat, plan: seq<Mapping>, v: nat, n: nat) {
    && InWindow(v) && v !in PagesIn(plan)
    && |s.free| >= Need(s.ent, r, PagesIn(plan).Keys + {v}) + KeptIn(plan) + n
  }

  /** One page of a list. */
  ghost function MapF(s: Vm, r: nat, m: Mapping): Vm
    requires Mappable(s, r, m.v, |m.kept|)
  {
    PageInF(s, r, m.v, m.page, m.kept)
  }

  /** Mapping page m in t, to which the list has led, continues the list. */
  ghost predicate Continues(s: Vm, t: Vm, r: nat, plan: seq<Mapping>, m: Mapping) {
    && Mappable(t, r, m.v, |m.kept|) && Plannable(s, r, plan + [m])
    && LoadF(s, r, plan + [m]) == MapF(t, r, m)
  }

  /** The list can be continued by one more page. */
  lemma LoadMore(s: Vm, r: nat, plan: seq<Mapping>, m: Mapping)
    requires Plannable(s, r, plan) && Roomy(s, r, plan, m.v, |m.kept|)
    ensures Continues(s, LoadF(s, r, plan), r, plan, m)
  {
    hide Mapped, Placed, Need, PageInF;
    PlanMore(plan, m);
    assert PagesIn(plan + [m]).Keys == PagesIn(plan).Keys + {m.v};
    PlacedReady(s, LoadF(s, r, plan), r, PagesIn(plan), KeptIn(plan), m.v, |m.kept|);
  }

  /** The new page's frame is the head of the free list, which nobody wrote to. */
  lemma WasMore(s: Vm, t: Vm, r: nat, plan: seq<Mapping>, m: Mapping)
    requires Plannable(s, r, plan) && t == LoadF(s, r, plan) && Roomy(s, r, plan, m.v, |m.kept|)
    requires Continues(s, t, r, plan, m) && t.free != [] && t.free[0] < |t.mem|
    ensures var u := MapF(t, r, m);
      && PagesIn(plan + [m]) == PagesIn(plan)[m.v := m.page]
      && Placed(s, u, r, PagesIn(plan + [m]), KeptIn(plan + [m]))
      && WasIn(s, u, r, PagesIn(plan + [m]), KeptIn(plan + [m])) ==
           WasIn(s, t, r, PagesIn(plan), KeptIn(plan))[m.v := t.mem[t.free[0]]]
  {
    hide Mapped, Plannable, LoadF, Need, PageInF, PathTables, TableKeys, Missing, K1, K2, K3, Was, Placed;
    PlanMore(plan, m);
    WasKept(s, t, PageInF(t, r, m.v, m.page, m.kept), r, PagesIn(plan), KeptIn(plan), m.v, m.page, m.kept);
  }

  lemma WasKept(s: Vm, t: Vm, u: Vm, r: nat, pages: map<nat, Frame>, n: nat, v: nat, d: Frame, kept: seq<Frame>)
    requires Placed(s, t, r, pages, n) && v !in pages && Inv(t) && Space(t, r) && Lower(v) && K0(r, v) !in t.ent
    requires |t.free| >= 1 + |kept| + Missing(t.ent, r, v) && u == PageInF(t, r, v, d, kept)
    requires Placed(s, u, r, pages[v := d], n + |kept|)
    ensures t.free[0] < |t.mem|
    ensures WasIn(s, u, r, pages[v := d], n + |kept|) == WasIn(s, t, r, pages, n)[v := t.mem[t.free[0]]]
  {
    hide Mapped, Need, PageInF, PathTables, TableKeys, Missing, K1, K2, K3, Inv;
    PageInFree(t, r, v, d, kept);
    EntryParts(t.free[0], UWP);
    forall w | w in pages[v := d]
      ensures TakenAt(s, u, r, w) && Was(s, u, r, w) == if w == v then t.mem[t.free[0]] else WasIn(s, t, r, pages, n)[w]
    {
      assert TakenAt(s, u, r, w);
      if w != v {
        assert TakenAt(s, t, r, w);
        assert K0(r, w) in u.ent - {K0(r, v)};
      }
    }
  }

  // ------------------------------------------------- clearing, then filling

  ghost predicate Clearable(s: Vm, r: nat) { Inv(s) && Space(s, r) && Settled(s) }

  /** The window is unmapped, as exec does first. */
  ghost function ClearF(s: Vm, r: nat): Vm
    requires Clearable(s, r)
  {
    RemoveAllF(s, r, TEXT, TOP)
  }

  lemma MappedAgain(s: Vm, t: Vm, u: Vm, r: nat, pages: map<nat, Frame>)
    requires Mapped(s, t, r, map[]) && Mapped(t, u, r, pages)
    ensures Mapped(s, u, r, pages)
  {
    hide PageAt, PageIs, UserOk, Inv;
    MappedInv(s, t, r, map[]);
    MappedInv(t, u, r, pages);
    forall k: Key ensures ForeignAt(s, u, r, k) {
      assert ForeignAt(s, t, r, k) && ForeignAt(t, u, r, k);
    }
  }

  /** A cleared window: its tables are still there. */
  lemma ClearedWindow(s: Vm, r: nat)
    requires UserOk(s) && Space(s, r)
    ensures Clearable(s, r)
    ensures var u := ClearF(s, r);
      && Mapped(s, u, r, map[]) && Mapped(u, u, r, map[])
      && TableKeys(u.ent, r) == TableKeys(s.ent, r)
  {
    hide Inv, Settled, PageOk, PageAt, MemKept, RemoveAllF, TlbCleared, Mapped;
    assert Clearable(s, r);
    var u := ClearF(s, r);
    MappedStart(s, u, r);
    MappedSelf(s, u, r);
    assert TableKeys(u.ent, r) == TableKeys(s.ent, r);
  }

  /** Nothing is cached once the window of the running process is cleared. */
  lemma ClearedTlb(s: Vm)
    requires UserOk(s) && Coherent(s) && Clearable(s, s.cr3)
    ensures ClearF(s, s.cr3).tlb == map[]
  {
    hide UserOk, Inv, RemoveAllF;
    NothingCached(s, ClearF(s, s.cr3));
  }

  lemma MappedSelf(s: Vm, u: Vm, r: nat)
    requires Mapped(s, u, r, map[])
    ensures Mapped(u, u, r, map[])
  {
    hide UserOk, PageAt, Inv;
    MappedInv(s, u, r, map[]);
    forall k: Key ensures ForeignAt(u, u, r, k) { }
    forall v: nat | InWindow(v) ensures PageIs(u, r, map[], v) { assert PageIs(u, r, map[], v); }
  }

  /** Clearing gives no table back. */
  lemma ClearedTables(s: Vm, r: nat, f: nat)
    requires Clearable(s, r) && f < |s.mem| && Sized(s) && s.role[f].Table?
    ensures var u := ClearF(s, r);
      Sized(u) && |u.mem| == |s.mem| && u.role[f].Table?
  {
    hide RemoveAllF;
    assert RoleAt(s, f) && NamedAt(ClearF(s, r), s.role[f].key);
  }

  lemma ClearedFree(s: Vm, r: nat, f: nat)
    requires Clearable(s, r) && Sized(s) && Sized(ClearF(s, r)) && f < |ClearF(s, r).mem| == |s.mem|
    requires ClearF(s, r).role[f].Free?
    ensures ClearF(s, r).mem[f] == s.mem[f]
  {
    hide RemoveAllF, Inv, Settled;
    if s.role[f].Table? { ClearedTables(s, r, f); }
  }

  // -------------------------------------------------- the first part of exec

  /** Frames for the directory block and for the first block of the file. */
  ghost predicate Openable(s: Vm) {
    Clearable(s, s.cr3) && s.free != [] && |ClearF(s, s.cr3).free| >= 2
  }

  /** The directory is read, the window cleared, and the first block of the file read;
      both blocks stay in frames of their own. */
  ghost function HeadF(s: Vm, dir: Frame, header: Frame): (t: Vm)
    requires UserOk(s) && Openable(s)
  {
    hide Openable, UserOk, Inv, ClearF, Clearable;
    HeadTakes(s, dir);
    KeepF(ClearF(KeepF(s, dir), s.cr3), header)
  }

  /** A frame that is kept is one that clearing leaves. */
  lemma HeadTakes(s: Vm, dir: Frame)
    requires UserOk(s) && Openable(s)
    ensures Inv(s) && s.free != [] && UserOk(KeepF(s, dir)) && Clearable(KeepF(s, dir), s.cr3)
    ensures Clearable(s, s.cr3) && KeepF(s, dir).cr3 == s.cr3 && Space(s, s.cr3)
    ensures var u := ClearF(KeepF(s, dir), s.cr3);
      Inv(u) && |ClearF(s, s.cr3).free| == |u.free| + 1 && u.free != [] && u.cr3 == s.cr3
  {
    hide RemoveAllF, Inv, Takes;
    var k, r := KeepF(s, dir), s.cr3;
    TakesOk(s, k, 1);
    TakesParts(s, k, 1);
    FirstFree(s);
    ClearedFrames(s, dir, r);
  }

  /** The frame of the directory block is one fewer on the free list afterwards. */
  lemma ClearedFrames(s: Vm, dir: Frame, r: nat)
    requires Inv(s) && s.free != [] && Clearable(s, r) && Clearable(KeepF(s, dir), r)
    ensures |ClearF(s, r).free| == |ClearF(KeepF(s, dir), r).free| + 1
  {
    hide Takes, RemoveAllF, MemKept;
    FirstFree(s);
    KeepHolds(s, dir);
    FreeStays(s, ClearF(s, r), s.free[0]);
    hide Inv, Settled;
    OneHeld(ClearF(s, r), ClearF(KeepF(s, dir), r), s.free[0]);
  }

  /** What no entry names stays free when entries go. */
  lemma FreeStays(s: Vm, t: Vm, f: nat)
    requires Inv(s) && Inv(t) && f < |s.mem| == |t.mem| && s.role[f].Free? && t.hold == s.hold
    requires forall k :: k in t.ent ==> k in s.ent && t.ent[k] == s.ent[k]
    ensures t.role[f].Free?
  {
    hide FreeExact, TablesStored, KernelShared, Closed;
    RefsEmpty(s, f);
    assert Refs(t.ent, f) == {};
    assert RoleAt(s, f) && CountAt(s, f) && RoleAt(t, f) && CountAt(t, f);
  }

  /** The window is empty then, and no other address space has changed. */
  lemma HeadWindow(s: Vm, dir: Frame, header: Frame)
    requires UserOk(s) && Openable(s)
    ensures var t, r := HeadF(s, dir, header), s.cr3;
      && Mapped(s, t, r, map[]) && Mapped(t, t, r, map[]) && t.cr3 == r
      && TableKeys(t.ent, r) == TableKeys(s.ent, r) && |t.free| + 2 == |ClearF(s, r).free|
  {
    hide UserOk, Inv, Mapped, ClearF, Clearable, Takes, TableKeys;
    HeadTakes(s, dir);
    var k, r := KeepF(s, dir), s.cr3;
    var u, t := ClearF(k, r), HeadF(s, dir, header);
    TakesParts(s, k, 1);
    ClearedWindow(k, r);
    TakesParts(u, t, 1);
    MappedKept(s, k, 1, u, t, 1, r);
    MappedSelf(s, t, r);
  }

  lemma MappedKept(s: Vm, k: Vm, n: nat, u: Vm, t: Vm, m: nat, r: nat)
    requires Takes(s, k, n) && Mapped(k, u, r, map[]) && Takes(u, t, m)
    ensures Mapped(s, t, r, map[])
  {
    TakesParts(s, k, n);
    TakesParts(u, t, m);
    TakesOk(u, t, m);
    hide Inv, UserOk, PageAt, Takes;
    forall v: nat | InWindow(v) ensures PageIs(t, r, map[], v) { assert PageIs(u, r, map[], v); }
    forall k': Key ensures ForeignAt(s, t, r, k') {
      assert ForeignAt(k, u, r, k');
      if k'.level == 0 { TakesPages(s, k, n, k'); TakesPages(u, t, m, k'); }
    }
  }

  /** Nothing is cached any more. */
  lemma HeadTlb(s: Vm, dir: Frame, header: Frame)
    requires UserOk(s) && Openable(s) && Coherent(s)
    ensures HeadF(s, dir, header).tlb == map[]
  {
    hide UserOk, Inv, ClearF, Clearable, Takes;
    HeadTakes(s, dir);
    var k := KeepF(s, dir);
    TakesParts(s, k, 1);
    ClearedTlb(k);
    TakesParts(ClearF(k, s.cr3), HeadF(s, dir, header), 1);
  }

  /** What is free then was free or in use by the window, and holds what it held. */
  lemma HeadKeeps(s: Vm, dir: Frame, header: Frame, f: nat)
    requires UserOk(s) && Openable(s) && Sized(s) && Sized(HeadF(s, dir, header))
    requires f < |HeadF(s, dir, header).mem| && HeadF(s, dir, header).role[f].Free?
    ensures |HeadF(s, dir, header).mem| == |s.mem| && HeadF(s, dir, header).mem[f] == s.mem[f]
  {
    hide UserOk, Inv, RemoveAllF, Takes, Settled;
    HeadTakes(s, dir);
    var k, r := KeepF(s, dir), s.cr3;
    var u, t := ClearF(k, r), HeadF(s, dir, header);
    SizedAll(k);
    SizedAll(u);
    StillFree(u, t, 1, f);
    FirstFree(s);
    FreeHold(u, f);
    KeepHolds(s, dir);
    ClearedFree(k, r, f);
  }

  lemma StillFree(u: Vm, t: Vm, n: nat, f: nat)
    requires Takes(u, t, n) && Sized(u) && Sized(t) && f < |t.mem| && t.role[f].Free?
    ensures |u.mem| == |t.mem| && u.role[f].Free? && u.mem[f] == t.mem[f]
  {
    hide Inv;
  }

  /** What the frames of the new pages held before exec. */
  lemma WasBefore(s: Vm, dir: Frame, header: Frame, t: Vm, pages: map<nat, Frame>, n: nat, v: nat)
    requires UserOk(s) && Openable(s) && Placed(HeadF(s, dir, header), t, s.cr3, pages, n) && v in pages
    ensures var u, k := HeadF(s, dir, header), K0(s.cr3, v);
      Sized(u) && TakenAt(u, t, s.cr3, v) && k in t.ent && FrameOf(t.ent[k]) < |s.mem|
      && Was(u, t, s.cr3, v) == s.mem[FrameOf(t.ent[k])]
  {
    hide HeadF, Mapped, Need, PathTables, TableKeys, FreeKept, Inv, Openable;
    var u := HeadF(s, dir, header);
    assert TakenAt(u, t, s.cr3, v);
    SizedAll(s);
    HeadKeeps(s, dir, header, FrameOf(t.ent[K0(s.cr3, v)]));
  }

  // ---------------------------------------------------- a new address space

  lemma FreshSpaceOk(s: Vm)
    requires UserOk(s) && s.free != []
    ensures UserOk(AllocSpaceF(s))
  {
    hide Inv, DataKept, EmptySpace;
    var t := AllocSpaceF(s);
    assert Settled(t);
    forall k | k in t.ent ensures PageOk(t, k) { FreshSpacePage(s, t, k); }
  }

  lemma FreshSpacePage(s: Vm, t: Vm, k: Key)
    requires UserOk(s) && s.free != [] && t == AllocSpaceF(s) && k in t.ent
    ensures PageOk(t, k)
  {
    hide AllocSpaceF, DataKept;
    var n := K4(s.free[0]);
    assert FrameOf(t.ent[n]) == s.free[0];
    if k != n {
      assert PageOk(s, k);
      FreshUnnamed(s, k);
      forall k' | k' in t.ent && FrameOf(t.ent[k']) == FrameOf(t.ent[k]) && k.level == 0 && Writable(t.ent[k])
        ensures k' == k
      {
        if k' != n { FreshUnnamed(s, k'); }
      }
    }
  }

  /** alloc_vm, and cr3 loaded with the new PML4. */
  ghost function NewSpaceF(s: Vm): (t: Vm)
    requires Inv(s) && s.free != []
    ensures Inv(t) && DataKept(s, t) && t.free == s.free[1..] && |t.mem| == |s.mem|
    ensures t.ent == s.ent[K4(s.free[0]) := Entry(s.free[0], 0)] && forall k :: k in s.ent ==> k.root != s.free[0]
    ensures t.tlb == map[] && t.cr3 == s.free[0] && Sized(t) && Space(t, s.free[0])
  {
    var t := AllocSpaceF(s);
    TablesSame(t, t.(tlb := map[], cr3 := s.free[0]));
    t.(tlb := map[], cr3 := s.free[0])
  }

  /** A new address space has no page. */
  lemma MappedFresh(s: Vm)
    requires UserOk(s) && s.free != []
    ensures Mapped(NewSpaceF(s), NewSpaceF(s), s.free[0], map[])
  {
    FreshSpaceOk(s);
    TlbOnly(AllocSpaceF(s), NewSpaceF(s));
    var t, c := NewSpaceF(s), s.free[0];
    hide Inv, UserOk, DataKept, NewSpaceF;
    forall v: nat | InWindow(v) ensures PageIs(t, c, map[], v) { }
    forall k: Key ensures ForeignAt(t, t, c, k) { }
  }
}
