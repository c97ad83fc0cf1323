/** Whole address spaces: demand-zero and copy-on-write faults, fork's sharing
    loop and the teardown of an exiting process, as operations on `Vm`. */
module AddressSpace {
  import opened Words
  import opened Vm
  import opened PageTable

  // ----------------------------------------------------------------- faults

  lemma PageSame(s: Vm, t: Vm, k: Key)
    requires Inv(s) && Inv(t) && DataKept(s, t) && k.level == 0
    requires k in s.ent <==> k in t.ent
    requires k in s.ent ==> FrameOf(t.ent[k]) == FrameOf(s.ent[k])
    ensures PageAt(t, k) == PageAt(s, k)
  {
    assert k in s.ent ==> NamedAt(s, k);
  }

  /** Not-present fault: a zeroed page is mapped writable. */
  ghost function ZeroF(s: Vm, r: nat, v: nat): (t: Vm)
    requires Inv(s) && Space(s, r) && Lower(v) && K0(r, v) !in s.ent
    requires |s.free| >= 1 + Missing(s.ent, r, v)
    ensures Inv(t) && DataKept(s, t)
    ensures K0(r, v) in t.ent && t.ent[K0(r, v)] == Entry(s.free[0], UWP)
    ensures Grown(s.ent, t.ent - {K0(r, v)}, r, v)
    ensures t.hold == s.hold && t.tlb == s.tlb - {v} && t.cr3 == s.cr3 && t.khalf == s.khalf
    ensures |t.free| == |s.free| - 1 - Missing(s.ent, r, v)
    ensures t.mem[s.free[0]] == ZeroFrame()
  {
    AllocInv(s, true);
    ZeroGood(s, r, v);
    InsertF(AllocF(s, true), r, v, s.free[0], UWP)
  }

  lemma ZeroGood(s: Vm, r: nat, v: nat)
    requires Inv(s) && Space(s, r) && Lower(v) && K0(r, v) !in s.ent
    requires |s.free| >= 1 + Missing(s.ent, r, v) && Inv(AllocF(s, true)) && s.free[0] < |s.mem|
    ensures var t := InsertF(AllocF(s, true), r, v, s.free[0], UWP);
      DataKept(s, t) && t.hold == s.hold && t.mem[s.free[0]] == ZeroFrame()
  {
    hide K1, K2, K3, Grown, InsertF, Missing, Lower, CountsExact, RolesOk, Closed, TablesStored, KernelShared, Named;
    var a := AllocF(s, true);
    AllocKept(s, true);
    DataKeptTrans(s, a, InsertF(a, r, v, s.free[0], UWP));
  }

  /** A demand-zero fault changes what no page of any address space reads. */
  lemma ZeroKeepsPages(s: Vm, r: nat, v: nat, k: Key)
    requires Inv(s) && Space(s, r) && Lower(v) && K0(r, v) !in s.ent
    requires |s.free| >= 1 + Missing(s.ent, r, v)
    requires k.level == 0
    ensures PageAt(ZeroF(s, r, v), k) == PageAt(s, k)
  {
    hide K1, K2, K3;
    var t := ZeroF(s, r, v);
    if k == K0(r, v) {
      EntryParts(s.free[0], UWP);
    } else {
      assert k in t.ent <==> k in t.ent - {K0(r, v)};
      PageSame(s, t, k);
    }
  }

  /** The fresh frame of a copy-on-write fault, filled with the page's content. */
  ghost function CopyF(s: Vm, k: Key): (t: Vm)
    requires Inv(s) && k in s.ent && k.level == 0 && s.free != []
    ensures Inv(t) && DataKept(s, t) && t.ent == s.ent
    ensures t.role == s.role[s.free[0] := Data] && t.hold == s.hold[s.free[0] := 1]
    ensures t.mem == s.mem[s.free[0] := PageAt(s, k)] && t.free == s.free[1..]
    ensures s.role[s.free[0]].Free?
    ensures t.tlb == s.tlb && t.cr3 == s.cr3 && t.khalf == s.khalf
  {
    AllocInv(s, true);
    FillInv(AllocF(s, true), s.free[0], PageAt(s, k));
    FillF(AllocF(s, true), s.free[0], PageAt(s, k))
  }

  /** Write fault on a present page: copy, drop the old mapping, map the copy. */
  ghost function CowF(s: Vm, r: nat, v: nat): (t: Vm)
    requires Inv(s) && Space(s, r) && Lower(v) && K0(r, v) in s.ent && s.free != []
    requires NamedAt(s, K0(r, v)) && s.hold[FrameOf(s.ent[K0(r, v)])] >= 0
    ensures Inv(t) && t.ent == s.ent[K0(r, v) := Entry(s.free[0], UWP)]
    ensures t.hold == s.hold && t.tlb == s.tlb - {v} && t.cr3 == s.cr3 && t.khalf == s.khalf
    ensures PageAt(t, K0(r, v)) == PageAt(s, K0(r, v))
  {
    hide K1, K2, K3;
    var b := CopyF(s, K0(r, v));
    TablesAbove(s, r, v);
    assert NamedAt(b, K0(r, v));
    var d := RemoveF(b, r, v);
    CowTail(s, r, v, b, d);
    InsertF(d, r, v, s.free[0], UWP)
  }

  lemma CowTail(s: Vm, r: nat, v: nat, b: Vm, d: Vm)
    requires Inv(s) && Lower(v) && K0(r, v) in s.ent && s.free != [] && Space(s, r)
    requires b == CopyF(s, K0(r, v)) && NamedAt(b, K0(r, v))
    requires b.hold[FrameOf(b.ent[K0(r, v)])] >= 0 && d == RemoveF(b, r, v)
    ensures K1(r, v) in d.ent && Missing(d.ent, r, v) == 0 && Space(d, r)
    ensures s.free[0] < |d.mem| && d.role[s.free[0]].Data? && K0(r, v) !in d.ent
    ensures d.mem[s.free[0]] == PageAt(s, K0(r, v))
  {
    TablesAbove(s, r, v);
    assert RoleAt(d, s.free[0]) && CountAt(d, s.free[0]);
  }

  /** A copy-on-write fault changes what no page of any address space reads. */
  lemma CowKeepsPages(s: Vm, r: nat, v: nat, k: Key)
    requires Inv(s) && Space(s, r) && Lower(v) && K0(r, v) in s.ent && s.free != []
    requires NamedAt(s, K0(r, v)) && s.hold[FrameOf(s.ent[K0(r, v)])] >= 0
    requires k.level == 0
    ensures PageAt(CowF(s, r, v), k) == PageAt(s, k)
  {
    hide K1, K2, K3;
    if k != K0(r, v) {
      var b := CopyF(s, K0(r, v));
      TablesAbove(s, r, v);
      assert NamedAt(b, K0(r, v));
      var d := RemoveF(b, r, v);
      CowTail(s, r, v, b, d);
      PageSame(s, b, k);
      assert k in b.ent ==> NamedAt(b, k) && NamedAt(d, k);
      assert PageAt(d, k) == PageAt(b, k);
      PageSame(d, CowF(s, r, v), k);
    }
  }

  // ------------------------------------------------------------------- fork

  /** The tables of address space c below its PML4. */
  ghost function TableKeys(ent: map<Key, nat>, c: nat): set<Key> {
    set k | k in ent && k.root == c && 1 <= k.level <= 3
  }

  lemma CardAddThree(a: set<Key>, x: Key, y: Key, z: Key)
    requires x != y && y != z && x != z
    ensures |a + {x, y, z}| == |a| + (if x in a then 0 else 1) + (if y in a then 0 else 1)
                                   + (if z in a then 0 else 1)
  {
    var b := a + {x};
    var c := b + {y};
    assert a + {x, y, z} == c + {z};
    CardAddOne(a, x);
    CardAddOne(b, y);
    CardAddOne(c, z);
  }

  lemma CardAddOne(a: set<Key>, x: Key)
    ensures |a + {x}| == |a| + (if x in a then 0 else 1)
  {
    if x in a { assert a + {x} == a; }
  }

  /** Inserting pays for new tables out of the free list, one frame each. */
  lemma InsertPays(s: Vm, t: Vm, c: nat, v: nat)
    requires Inv(s) && Inv(t) && Lower(v)
    requires Grown(s.ent, t.ent - {K0(c, v)}, c, v) && K0(c, v) !in s.ent
    requires K1(c, v) in t.ent && K2(c, v) in t.ent && K3(c, v) in t.ent
    requires |t.free| == |s.free| - Missing(s.ent, c, v)
    ensures TableKeys(t.ent, c) == TableKeys(s.ent, c) + {K1(c, v), K2(c, v), K3(c, v)}
    ensures |t.free| + |TableKeys(t.ent, c)| == |s.free| + |TableKeys(s.ent, c)|
  {
    TablesGrow(s.ent, t.ent, K0(c, v), K1(c, v), K2(c, v), K3(c, v));
    CardAddThree(TableKeys(s.ent, c), K1(c, v), K2(c, v), K3(c, v));
  }

  lemma TablesGrow(s: map<Key, nat>, t: map<Key, nat>, k0: Key, k1: Key, k2: Key, k3: Key)
    requires GrownBy(s, t - {k0}, k1, k2, k3) && k0 !in s && k0.level == 0
    requires k1 in t && k2 in t && k3 in t && k1.root == k2.root == k3.root
    requires k1.level == 1 && k2.level == 2 && k3.level == 3
    ensures TableKeys(t, k1.root) == TableKeys(s, k1.root) + {k1, k2, k3}
  {
    forall k ensures k in TableKeys(t, k1.root) <==> k in TableKeys(s, k1.root) + {k1, k2, k3} {
      assert k != k0 ==> (k in t <==> k in t - {k0});
    }
  }

  /** Rewrite the flags of a mapped page, and invalidate it. */
  ghost function ReshareF(s: Vm, k: Key, flags: nat): (t: Vm)
    requires Inv(s) && k in s.ent && k.level == 0 && flags < 4096 && flags % 2 == 1
    ensures Inv(t) && DataKept(s, t) && t.hold == s.hold && t.free == s.free
    ensures t.ent == s.ent[k := Entry(FrameOf(s.ent[k]), flags)]
    ensures t.tlb == s.tlb - {k.p} && t.cr3 == s.cr3 && t.khalf == s.khalf
  {
    var w := Entry(FrameOf(s.ent[k]), flags);
    EntryParts(FrameOf(s.ent[k]), flags);
    assert ClosedAt(s.ent, k) && NamedAt(s, Parent(k));
    ReflagInv(s, k, w);
    DropTlbInv(ReflagF(s, k, w), k.p);
    DropTlb(ReflagF(s, k, w), k.p)
  }

  lemma AliasGood(s: Vm, c: nat, v: nat, f: nat)
    requires Inv(s) && Space(s, c) && Lower(v) && K0(c, v) !in s.ent
    requires f < |s.mem| && s.role[f].Data? && |s.free| >= Missing(s.ent, c, v)
    ensures var a := InsertF(s, c, v, f, UPC);
      f < |a.mem| && Inv(BumpF(a, f)) && DataKept(s, BumpF(a, f)) && BumpF(a, f).hold == s.hold
  {
    hide K1, K2, K3, Inv, InsertF, Missing, Grown;
    var a := InsertF(s, c, v, f, UPC);
    SizedAll(s);
    SizedAll(a);
    BumpInv(a, f);
  }

  /** insert_page of the shared frame into the new space, then pp->count++. */
  ghost function AliasF(s: Vm, c: nat, v: nat, f: nat): (t: Vm)
    requires Inv(s) && Space(s, c) && Lower(v) && K0(c, v) !in s.ent
    requires f < |s.mem| && s.role[f].Data? && |s.free| >= Missing(s.ent, c, v)
    ensures Inv(t) && DataKept(s, t) && t.hold == s.hold
    ensures t.ent == InsertF(s, c, v, f, UPC).ent && t.free == InsertF(s, c, v, f, UPC).free
    ensures t.tlb == s.tlb - {v} && t.cr3 == s.cr3 && t.khalf == s.khalf
  {
    AliasGood(s, c, v, f);
    BumpF(InsertF(s, c, v, f, UPC), f)
  }

  /** If page v of r is mapped, sharing it with c is possible. */
  ghost predicate Sharable(s: Vm, r: nat, c: nat, v: nat)
    requires Inv(s)
  {
    K0(r, v) in s.ent ==>
      K0(c, v) !in s.ent && |s.free| >= Missing(s.ent, c, v) && NamedAt(s, K0(r, v))
  }

  /** One round of fork's loop: share page v of r with the new space c, read-only. */
  ghost function ShareF(s: Vm, r: nat, c: nat, v: nat): (t: Vm)
    requires Inv(s) && Space(s, c) && Lower(v) && r != c
    requires Sharable(s, r, c, v)
    ensures Inv(t) && DataKept(s, t) && t.hold == s.hold && t.cr3 == s.cr3 && t.khalf == s.khalf
    ensures t.tlb == if K0(r, v) in s.ent then s.tlb - {v} else s.tlb
    ensures K0(r, v) !in s.ent ==> t == s
    ensures K0(r, v) in s.ent ==>
      var a := AliasF(s, c, v, FrameOf(s.ent[K0(r, v)]));
      t.free == a.free && t.ent == a.ent[K0(r, v) := Entry(FrameOf(s.ent[K0(r, v)]), UPC)]
  {
    hide K1, K2, K3, Inv, Missing, InsertF, AliasF, ReshareF, DataKept, Grown;
    if K0(r, v) !in s.ent then KeptSelf(s); s else
      var a := AliasF(s, c, v, FrameOf(s.ent[K0(r, v)]));
      FrameHere(s, K0(r, v));
      AliasHas(s, c, v, FrameOf(s.ent[K0(r, v)]), K0(r, v));
      DataKeptTrans(s, a, ReshareF(a, K0(r, v), UPC));
      ReshareF(a, K0(r, v), UPC)
  }

  lemma KeptSelf(s: Vm)
    requires Inv(s)
    ensures DataKept(s, s)
  {
  }

  lemma FrameHere(s: Vm, k: Key)
    requires Inv(s) && k in s.ent && k.level == 0
    ensures FrameOf(s.ent[k]) < |s.mem| == |s.role| && s.role[FrameOf(s.ent[k])].Data?
  {
    assert NamedAt(s, k);
  }

  /** Inserting into c takes no entry of another space away. */
  lemma AliasHas(s: Vm, c: nat, v: nat, f: nat, k: Key)
    requires Inv(s) && Space(s, c) && Lower(v) && K0(c, v) !in s.ent
    requires f < |s.mem| && s.role[f].Data? && |s.free| >= Missing(s.ent, c, v)
    requires k in s.ent && k.root != c
    ensures k in AliasF(s, c, v, f).ent && AliasF(s, c, v, f).ent[k] == s.ent[k]
  {
    hide K1, K2, K3, Inv, Missing, InsertF;
    assert k in InsertF(s, c, v, f, UPC).ent - {K0(c, v)};
  }

  // What the loop has done to the entries after the pages [lo, hi).

  ghost function ShareWord(ent: map<Key, nat>, r: nat, lo: nat, hi: nat, k: Key): nat
    requires k in ent
  {
    if k.root == r && k.level == 0 && lo <= k.p < hi then Entry(FrameOf(ent[k]), UPC) else ent[k]
  }

  ghost predicate OtherAt(s: map<Key, nat>, t: map<Key, nat>, r: nat, c: nat, lo: nat, hi: nat, k: Key) {
    k.root != c ==>
      && (k in t <==> k in s)
      && (k in s ==> t[k] == ShareWord(s, r, lo, hi, k))
  }

  ghost predicate ChildAt(s: map<Key, nat>, t: map<Key, nat>, r: nat, c: nat, lo: nat, hi: nat, v: nat) {
    && (K0(c, v) in t <==> lo <= v < hi && K0(r, v) in s)
    && (K0(c, v) in t ==> t[K0(c, v)] == Entry(FrameOf(s[K0(r, v)]), UPC))
  }

  /** One round changes the shared page's two entries and adds tables of c. */
  ghost predicate ShareMoves(u: map<Key, nat>, t: map<Key, nat>, r: nat, c: nat, v: nat, f: nat, k: Key) {
    if k == K0(r, v) || k == K0(c, v) then k in t && t[k] == Entry(f, UPC)
    else if k in u then k in t && t[k] == u[k]
    else k in t ==> k.root == c && k.level >= 1
  }

  lemma ShareEntries(u: Vm, r: nat, c: nat, v: nat, k: Key)
    requires Inv(u) && Space(u, c) && Lower(v) && r != c && K0(r, v) in u.ent
    requires K0(c, v) !in u.ent && |u.free| >= Missing(u.ent, c, v) && NamedAt(u, K0(r, v))
    ensures ShareMoves(u.ent, ShareF(u, r, c, v).ent, r, c, v, FrameOf(u.ent[K0(r, v)]), k)
  {
    hide K1, K2, K3, FrameOf, Entry, Inv;
    var f := FrameOf(u.ent[K0(r, v)]);
    AliasMoves(u.ent, AliasF(u, c, v, f).ent, r, c, v, f, k);
  }

  lemma AliasMoves(u: map<Key, nat>, m: map<Key, nat>, r: nat, c: nat, v: nat, f: nat, k: Key)
    requires r != c && K0(r, v) in u && K0(c, v) in m && m[K0(c, v)] == Entry(f, UPC)
    requires Grown(u, m - {K0(c, v)}, c, v) && K0(c, v) !in u
    ensures ShareMoves(u, m[K0(r, v) := Entry(f, UPC)], r, c, v, f, k)
  {
    hide Entry;
    assert K0(r, v) in m - {K0(c, v)};
    assert k != K0(c, v) ==> (k in m <==> k in m - {K0(c, v)});
  }

  lemma ShareStep(s: map<Key, nat>, u: Vm, r: nat, c: nat, lo: nat, v: nat, k: Key, x: nat)
    requires Inv(u) && Space(u, c) && Lower(v) && r != c && lo <= v
    requires OtherAt(s, u.ent, r, c, lo, v, K0(r, v)) && ChildAt(s, u.ent, r, c, lo, v, v)
    requires Sharable(u, r, c, v)
    requires OtherAt(s, u.ent, r, c, lo, v, k) && ChildAt(s, u.ent, r, c, lo, v, x)
    ensures OtherAt(s, ShareF(u, r, c, v).ent, r, c, lo, v + 1, k)
    ensures ChildAt(s, ShareF(u, r, c, v).ent, r, c, lo, v + 1, x)
  {
    hide K1, K2, K3;
    if K0(r, v) in u.ent {
      var f, t := FrameOf(u.ent[K0(r, v)]), ShareF(u, r, c, v).ent;
      ShareEntries(u, r, c, v, k);
      ShareEntries(u, r, c, v, K0(c, x));
      MoveKeeps(s, u.ent, t, r, c, lo, v, f, k, x);
    }
  }

  lemma MoveKeeps(s: map<Key, nat>, u: map<Key, nat>, t: map<Key, nat>,
                  r: nat, c: nat, lo: nat, v: nat, f: nat, k: Key, x: nat)
    requires r != c && lo <= v && K0(r, v) in u && K0(c, v) !in u && f == FrameOf(u[K0(r, v)])
    requires OtherAt(s, u, r, c, lo, v, K0(r, v))
    requires OtherAt(s, u, r, c, lo, v, k) && ChildAt(s, u, r, c, lo, v, x)
    requires ShareMoves(u, t, r, c, v, f, k) && ShareMoves(u, t, r, c, v, f, K0(c, x))
    ensures OtherAt(s, t, r, c, lo, v + 1, k) && ChildAt(s, t, r, c, lo, v + 1, x)
  {
    hide FrameOf;
  }

  // ------------------------------------------------------------ the loop

  /** The tables that a child c needs for r's mapped pages in [lo, hi). */
  ghost function ForkTables(ent: map<Key, nat>, r: nat, c: nat, lo: nat, hi: nat): set<Key> {
    (set v | lo <= v < hi && K0(r, v) in ent :: K1(c, v))
    + (set v | lo <= v < hi && K0(r, v) in ent :: K2(c, v))
    + (set v | lo <= v < hi && K0(r, v) in ent :: K3(c, v))
  }

  lemma ForkTablesStep(ent: map<Key, nat>, r: nat, c: nat, lo: nat, v: nat)
    requires lo <= v
    ensures ForkTables(ent, r, c, lo, v + 1) ==
      if K0(r, v) in ent then ForkTables(ent, r, c, lo, v) + {K1(c, v), K2(c, v), K3(c, v)}
      else ForkTables(ent, r, c, lo, v)
  {
    hide K1, K2, K3;
  }

  /** What fork's loop has established after the pages [lo, hi) of r. */
  ghost predicate Shared(s: Vm, t: Vm, r: nat, c: nat, lo: nat, hi: nat)
    requires Inv(s)
  {
    && Inv(t) && Space(t, c) && DataKept(s, t)
    && t.hold == s.hold && t.cr3 == s.cr3 && t.khalf == s.khalf
    && (forall k {:trigger OtherAt(s.ent, t.ent, r, c, lo, hi, k)} ::
          OtherAt(s.ent, t.ent, r, c, lo, hi, k))
    && (forall v {:trigger ChildAt(s.ent, t.ent, r, c, lo, hi, v)} ::
          ChildAt(s.ent, t.ent, r, c, lo, hi, v))
    && TableKeys(t.ent, c) == ForkTables(s.ent, r, c, lo, hi)
    && |t.free| + |TableKeys(t.ent, c)| == |s.free|
    && (forall v :: v in t.tlb ==> v in s.tlb && t.tlb[v] == s.tlb[v])
    && (forall v :: v in t.tlb && lo <= v < hi ==> K0(r, v) !in s.ent)
  }

  /** A PML4 without user entries, as alloc_vm returns it. */
  ghost predicate EmptySpace(s: Vm, c: nat) {
    Space(s, c) && forall k :: k in s.ent && k.root == c ==> k == K4(c)
  }

  lemma SharedStart(s: Vm, r: nat, c: nat, lo: nat)
    requires Inv(s) && r != c && EmptySpace(s, c)
    ensures Shared(s, s, r, c, lo, lo)
  {
    hide K1, K2, K3;
    assert TableKeys(s.ent, c) == {};
  }

  /** The round for page v is affordable if the tables for [lo, v] are. */
  lemma ShareAffordable(s: Vm, u: Vm, r: nat, c: nat, lo: nat, v: nat)
    requires Inv(s) && r != c && EmptySpace(s, c) && Lower(v) && lo <= v
    requires Shared(s, u, r, c, lo, v) && |ForkTables(s.ent, r, c, lo, v + 1)| <= |s.free|
    ensures K0(r, v) in s.ent <==> K0(r, v) in u.ent
    ensures Sharable(u, r, c, v)
  {
    assert OtherAt(s.ent, u.ent, r, c, lo, v, K0(r, v)) && ChildAt(s.ent, u.ent, r, c, lo, v, v);
    if K0(r, v) in u.ent {
      assert NamedAt(u, K0(r, v));
      ForkTablesStep(s.ent, r, c, lo, v);
      CardAddThree(TableKeys(u.ent, c), K1(c, v), K2(c, v), K3(c, v));
    }
  }

  lemma SharedNext(s: Vm, u: Vm, r: nat, c: nat, lo: nat, v: nat)
    requires Inv(s) && r != c && EmptySpace(s, c) && Lower(v) && lo <= v
    requires Shared(s, u, r, c, lo, v)
    requires K0(r, v) in s.ent <==> K0(r, v) in u.ent
    requires Sharable(u, r, c, v)
    ensures Shared(s, ShareF(u, r, c, v), r, c, lo, v + 1)
  {
    hide K1, K2, K3, Inv, EmptySpace, Sharable, DataKept, ForkTables, TableKeys;
    SharedNextEntries(s, u, r, c, lo, v, v + 1);
    ForkTablesStep(s.ent, r, c, lo, v);
    DataKeptTrans(s, u, ShareF(u, r, c, v));
    SharedTables(u, r, c, v);
  }

  lemma SharedNextEntries(s: Vm, u: Vm, r: nat, c: nat, lo: nat, v: nat, hi: nat)
    requires Inv(s) && r != c && Lower(v) && lo <= v && hi == v + 1
    requires Shared(s, u, r, c, lo, v)
    requires Sharable(u, r, c, v)
    ensures forall k {:trigger OtherAt(s.ent, ShareF(u, r, c, v).ent, r, c, lo, hi, k)} ::
              OtherAt(s.ent, ShareF(u, r, c, v).ent, r, c, lo, hi, k)
    ensures forall x {:trigger ChildAt(s.ent, ShareF(u, r, c, v).ent, r, c, lo, hi, x)} ::
              ChildAt(s.ent, ShareF(u, r, c, v).ent, r, c, lo, hi, x)
  {
    hide K1, K2, K3, Missing, ShareF, Inv, DataKept;
    var t := ShareF(u, r, c, v);
    assert OtherAt(s.ent, u.ent, r, c, lo, v, K0(r, v)) && ChildAt(s.ent, u.ent, r, c, lo, v, v);
    forall k ensures OtherAt(s.ent, t.ent, r, c, lo, hi, k) {
      assert OtherAt(s.ent, u.ent, r, c, lo, v, k);
      ShareStep(s.ent, u, r, c, lo, v, k, v);
    }
    forall x ensures ChildAt(s.ent, t.ent, r, c, lo, hi, x) {
      assert ChildAt(s.ent, u.ent, r, c, lo, v, x);
      ShareStep(s.ent, u, r, c, lo, v, K0(r, v), x);
    }
  }

  lemma SharedTables(u: Vm, r: nat, c: nat, v: nat)
    requires Inv(u) && Space(u, c) && Lower(v) && r != c
    requires Sharable(u, r, c, v)
    ensures var t := ShareF(u, r, c, v);
      && Space(t, c)
      && |t.free| + |TableKeys(t.ent, c)| == |u.free| + |TableKeys(u.ent, c)|
      && TableKeys(t.ent, c) == if K0(r, v) !in u.ent then TableKeys(u.ent, c)
           else TableKeys(u.ent, c) + {K1(c, v), K2(c, v), K3(c, v)}
  {
    hide K1, K2, K3, Missing;
    if K0(r, v) in u.ent {
      var f := FrameOf(u.ent[K0(r, v)]);
      var a := InsertF(u, c, v, f, UPC);
      var t := ShareF(u, r, c, v);
      InsertPays(u, a, c, v);
      assert K0(r, v) in a.ent - {K0(c, v)};
      assert K4(c) in a.ent - {K0(c, v)};
      assert TableKeys(t.ent, c) == TableKeys(a.ent, c);
    }
  }

  /** fork's loop over the pages [lo, hi). */
  ghost function ShareAllF(s: Vm, r: nat, c: nat, lo: nat, hi: nat): (t: Vm)
    requires Inv(s) && r != c && EmptySpace(s, c) && lo <= hi && (lo < hi ==> Lower(hi - 1))
    requires |ForkTables(s.ent, r, c, lo, hi)| <= |s.free|
    ensures Shared(s, t, r, c, lo, hi)
    decreases hi
  {
    hide K1, K2, K3, Missing, Inv, Shared, Sharable, EmptySpace, ForkTables, Lower;
    if lo == hi then
      SharedStart(s, r, c, lo);
      s
    else
      ForkTablesStep(s.ent, r, c, lo, hi - 1);
      SubsetCard(ForkTables(s.ent, r, c, lo, hi - 1), ForkTables(s.ent, r, c, lo, hi));
      var u := ShareAllF(s, r, c, lo, hi - 1);
      ShareAffordable(s, u, r, c, lo, hi - 1);
      SharedNext(s, u, r, c, lo, hi - 1);
      ShareF(u, r, c, hi - 1)
  }

  lemma SubsetCard<T>(a: set<T>, b: set<T>)
    requires a <= b
    ensures |a| <= |b|
  {
    assert b == a + (b - a);
  }

  // ------------------------------------------------------- the whole of fork

  /** Every node hangs below the PML4 of its address space. */
  lemma RootOf(s: Vm, k: Key)
    requires Inv(s) && k in s.ent
    ensures k.level <= 4 && K4(k.root) in s.ent
    decreases 4 - k.level
  {
    assert NamedAt(s, k);
    if k.level < 4 {
      assert ClosedAt(s.ent, k);
      RootOf(s, Parent(k));
    }
  }

  /** alloc_vm: a fresh PML4 holding the kernel half only. */
  ghost function AllocSpaceF(s: Vm): (t: Vm)
    requires Inv(s) && s.free != []
    ensures Inv(t) && DataKept(s, t) && EmptySpace(t, s.free[0])
    ensures t.ent == s.ent[K4(s.free[0]) := Entry(s.free[0], 0)]
    ensures forall k :: k in s.ent ==> k.root != s.free[0]
    ensures t.hold == s.hold && t.free == s.free[1..]
    ensures t.tlb == s.tlb && t.cr3 == s.cr3 && t.khalf == s.khalf
  {
    var c := s.free[0];
    FreshRoot(s);
    AllocInv(s, true);
    AllocKept(s, true);
    RootInv(AllocF(s, true), c);
    RootF(AllocF(s, true), c)
  }

  lemma FreshRoot(s: Vm)
    requires Inv(s) && s.free != []
    ensures forall k :: k in s.ent ==> k.root != s.free[0]
  {
    AllocInv(s, true);
    forall k | k in s.ent ensures k.root != s.free[0] {
      RootOf(s, k);
      assert NamedAt(s, K4(k.root));
    }
  }

  /** The 2 MB regions in which address space r has a page. */
  ghost function Regions(ent: map<Key, nat>, r: nat): set<nat> {
    set v | TEXT <= v < TOP && K0(r, v) in ent :: Up(v)
  }

  lemma WindowDigits(v: nat)
    requires InWindow(v)
    ensures Lower(v) && 1024 <= Up(v) < 1152 && Up(Up(v)) == 2 && Up(Up(Up(v))) == 0
  {
    UpIsDiv(v);
    UpIsDiv(Up(v));
    UpIsDiv(Up(Up(v)));
  }

  lemma KeysOfRegions(c: nat, a: set<nat>)
    ensures |set p | p in a :: Key(c, 1, p)| == |a|
  {
    var b := set p | p in a :: Key(c, 1, p);
    if a != {} {
      var p :| p in a;
      KeysOfRegions(c, a - {p});
      assert b == (set q | q in a - {p} :: Key(c, 1, q)) + {Key(c, 1, p)};
    }
  }

  /** The tables of the child: one PT per region, and one PD and one PDPT. */
  lemma ForkTablesCount(ent: map<Key, nat>, r: nat, c: nat)
    requires K0(r, STACK) in ent
    ensures |ForkTables(ent, r, c, TEXT, TOP)| == 2 + |Regions(ent, r)|
  {
    hide Regions, ForkTables, Up;
    var a := set p | p in Regions(ent, r) :: Key(c, 1, p);
    StackTablesIn(ent, r, c);
    var k2, k3 := Key(c, 2, 2), Key(c, 3, 0);
    var all := ForkTables(ent, r, c, TEXT, TOP);
    forall k ensures k in all <==> k in a + {k2} + {k3} {
      ForkTableIn(ent, r, c, k);
    }
    KeysOfRegions(c, Regions(ent, r));
    assert k2 !in a && k3 !in a + {k2};
    assert all == a + {k2} + {k3};
  }

  lemma StackTablesIn(ent: map<Key, nat>, r: nat, c: nat)
    requires K0(r, STACK) in ent
    ensures Key(c, 2, 2) in ForkTables(ent, r, c, TEXT, TOP)
    ensures Key(c, 3, 0) in ForkTables(ent, r, c, TEXT, TOP)
  {
    WindowDigits(STACK);
    assert K2(c, STACK) in ForkTables(ent, r, c, TEXT, TOP);
    assert K3(c, STACK) in ForkTables(ent, r, c, TEXT, TOP);
  }

  lemma ForkTableIn(ent: map<Key, nat>, r: nat, c: nat, k: Key)
    ensures k in ForkTables(ent, r, c, TEXT, TOP) ==>
      (k.level == 1 && k.root == c && k.p in Regions(ent, r)) || k == Key(c, 2, 2) || k == Key(c, 3, 0)
    ensures k.level == 1 && k.root == c && k.p in Regions(ent, r) ==>
      k in ForkTables(ent, r, c, TEXT, TOP)
  {
    if k in ForkTables(ent, r, c, TEXT, TOP) {
      var v :| TEXT <= v < TOP && K0(r, v) in ent && (k == K1(c, v) || k == K2(c, v) || k == K3(c, v));
      WindowDigits(v);
    }
    if k.level == 1 && k.root == c && k.p in Regions(ent, r) {
      var v :| TEXT <= v < TOP && K0(r, v) in ent && k.p == Up(v);
      assert k == K1(c, v);
    }
  }
}
