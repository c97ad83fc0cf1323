/** walk_page, insert_page and remove_page as operations on the value `Vm`.

  The contracts say that the four-level radix table is a partial map from pages
  to words: inserting sets one key, removing deletes one key, and walking with
  `create` adds tables but no translation.  The Insert/Remove contracts also
  count frames exactly.
*/
module PageTable {
  import opened Words
  import opened Vm

  function K0(r: nat, v: nat): Key { Key(r, 0, v) }
  function K1(r: nat, v: nat): Key { Key(r, 1, Up(v)) }
  function K2(r: nat, v: nat): Key { Key(r, 2, Up(Up(v))) }
  function K3(r: nat, v: nat): Key { Key(r, 3, Up(Up(Up(v)))) }
  function K4(r: nat): Key { Key(r, 4, 0) }

  /** Pages below the kernel half: the first 256 PML4 slots. */
  predicate Lower(v: nat) { v < 0x8_0000_0000 }

  ghost predicate Space(s: Vm, r: nat) { K4(r) in s.ent }

  ghost predicate Chain(k1: Key, k2: Key, k3: Key) {
    && Parent(k1) == k2 && Parent(k2) == k3 && k3.p < 256
    && k1.level == 1 && k2.level == 2 && k3.level == 3
  }

  lemma Ancestors(r: nat, v: nat)
    requires Lower(v)
    ensures Parent(K0(r, v)) == K1(r, v) && Parent(K1(r, v)) == K2(r, v)
    ensures Parent(K2(r, v)) == K3(r, v) && Parent(K3(r, v)) == K4(r)
    ensures Chain(K1(r, v), K2(r, v), K3(r, v)) && K3(r, v).p < 256
  {
    UpIsDiv(v);
    UpIsDiv(Up(v));
    UpIsDiv(Up(Up(v)));
  }

  /** If a page has its PT, it has all four tables. */
  lemma TablesAbove(s: Vm, r: nat, v: nat)
    requires Inv(s) && Lower(v)
    ensures K0(r, v) in s.ent ==> K1(r, v) in s.ent
    ensures K1(r, v) in s.ent ==> K2(r, v) in s.ent
    ensures K2(r, v) in s.ent ==> K3(r, v) in s.ent
    ensures K3(r, v) in s.ent ==> K4(r) in s.ent
  {
    Ancestors(r, v);
    assert K0(r, v) in s.ent ==> ClosedAt(s.ent, K0(r, v));
    assert K1(r, v) in s.ent ==> ClosedAt(s.ent, K1(r, v));
    assert K2(r, v) in s.ent ==> ClosedAt(s.ent, K2(r, v));
    assert K3(r, v) in s.ent ==> ClosedAt(s.ent, K3(r, v));
  }

  /** The number of tables walk_page has to create for page v. */
  function Missing(ent: map<Key, nat>, r: nat, v: nat): nat {
    Absent(ent, K1(r, v)) + Absent(ent, K2(r, v)) + Absent(ent, K3(r, v))
  }

  /** What a page of an address space holds; an unmapped page reads as zero. */
  ghost function PageAt(s: Vm, k: Key): Frame
    requires Inv(s) && k.level == 0
  {
    assert k in s.ent ==> NamedAt(s, k);
    if k in s.ent then s.mem[FrameOf(s.ent[k])] else ZeroFrame()
  }

  // ------------------------------------------------ the walk through memory

  /** One level of the walk: the word of table t at the slot, 0 below a gap. */
  function Descend(mem: seq<Frame>, w: nat, i: nat): nat
    requires i < 512
  {
    if Present(w) && FrameOf(w) < |mem| then mem[FrameOf(w)][i] else 0
  }

  /** The word that the MMU, and walk_page, find for page v below PML4 frame r. */
  function Walk(mem: seq<Frame>, r: nat, v: nat): nat
    requires r < |mem|
  {
    var w3 := mem[r][v / 512 / 512 / 512 % 512];
    var w2 := Descend(mem, w3, v / 512 / 512 % 512);
    var w1 := Descend(mem, w2, v / 512 % 512);
    Descend(mem, w1, v % 512)
  }

  lemma DescendIs(s: Vm, k: Key)
    requires Inv(s) && k.level < 3
    ensures Descend(s.mem, Get(s.ent, Parent(k)), Slot(k)) == Get(s.ent, k)
  {
    ChildOfParent(k);
    assert k in s.ent ==> ClosedAt(s.ent, k);
    if Parent(k) in s.ent {
      assert NamedAt(s, Parent(k)) && StoredAt(s, Parent(k), Slot(k));
    }
  }

  /** The radix tree refines the map: walking memory finds exactly the entry. */
  lemma WalkIsLookup(s: Vm, r: nat, v: nat)
    requires Inv(s) && Space(s, r) && Lower(v)
    ensures r < |s.mem| && Walk(s.mem, r, v) == Get(s.ent, K0(r, v))
  {
    Ancestors(r, v);
    UpIsDiv(v);
    UpIsDiv(Up(v));
    UpIsDiv(Up(Up(v)));
    assert NamedAt(s, K4(r));
    ChildOfParent(K3(r, v));
    assert StoredAt(s, K4(r), K3(r, v).p);
    DescendIs(s, K2(r, v));
    DescendIs(s, K1(r, v));
    DescendIs(s, K0(r, v));
  }

  // ----------------------------------------------------------------- insert

  /** Frames in use as data keep their use and their content. */
  ghost predicate DataKept(s: Vm, t: Vm)
    requires Sized(s) && Sized(t)
  {
    && |t.mem| == |s.mem|
    && forall f {:trigger t.mem[f]} {:trigger t.role[f]} ::
         0 <= f < |s.mem| && s.role[f].Data? ==> t.role[f].Data? && t.mem[f] == s.mem[f]
  }

  ghost function NewTableF(s: Vm, k: Key): Vm
    requires Inv(s) && Parent(k) in s.ent && s.free != []
  {
    AllocInv(s, true);
    EntryParts(s.free[0], 7);
    LinkF(AllocF(s, true), k, Entry(s.free[0], 7))
  }

  lemma NewTable(s: Vm, k: Key)
    requires Inv(s) && 1 <= k.level < 4 && Parent(k) in s.ent && k !in s.ent
    requires (k.level == 3 ==> k.p < 256) && s.free != []
    ensures Inv(NewTableF(s, k)) && DataKept(s, NewTableF(s, k))
    ensures NewTableF(s, k).hold == s.hold
  {
    hide RolesOk, CountsExact, Closed, TablesStored, KernelShared;
    var u, f := AllocF(s, true), s.free[0];
    AllocInv(s, true);
    EntryParts(f, 7);
    LinkInv(u, k, Entry(f, 7));
    assert NamedAt(s, Parent(k));
  }

  /** The table for node k, created zeroed from the free list if it is missing. */
  ghost function EnsureF(s: Vm, k: Key): (t: Vm)
    requires Inv(s) && 1 <= k.level < 4 && Parent(k) in s.ent
    requires k.level == 3 ==> k.p < 256
    requires k in s.ent || s.free != []
    ensures Inv(t) && k in t.ent && DataKept(s, t)
    ensures t.hold == s.hold && t.tlb == s.tlb && t.cr3 == s.cr3 && t.khalf == s.khalf
    ensures |t.free| == |s.free| - (if k in s.ent then 0 else 1)
    ensures k in s.ent ==> t == s
    ensures OneMore(s.ent, t.ent, k)
    ensures k !in s.ent ==> t.ent == s.ent[k := Entry(s.free[0], UWP)]
  {
    if k in s.ent then s else
      NewTable(s, k);
      NewTableF(s, k)
  }

  /** t has the entries of s plus, at most, the three tables given. */
  ghost predicate GrownBy(s: map<Key, nat>, t: map<Key, nat>, k1: Key, k2: Key, k3: Key) {
    && (forall k :: k in s ==> k in t && t[k] == s[k])
    && (forall k :: k in t && k !in s ==>
          (k == k1 || k == k2 || k == k3) && k.root == k1.root && 1 <= k.level <= 3)
  }

  /** t has the entries of s plus, at most, tables on the path to page v. */
  ghost predicate Grown(s: map<Key, nat>, t: map<Key, nat>, r: nat, v: nat) {
    GrownBy(s, t, K1(r, v), K2(r, v), K3(r, v))
  }

  lemma EnsureIs(s: Vm, k: Key)
    requires Inv(s) && 1 <= k.level < 4 && Parent(k) in s.ent && k !in s.ent
    requires (k.level == 3 ==> k.p < 256) && s.free != []
    ensures EnsureF(s, k) == NewTableF(s, k)
  {
  }

  ghost predicate OneMore(s: map<Key, nat>, t: map<Key, nat>, k: Key) {
    t == s || (k !in s && k in t && t == s[k := t[k]])
  }

  lemma GrowThrice(s: map<Key, nat>, t3: map<Key, nat>, t2: map<Key, nat>, t1: map<Key, nat>,
                   k1: Key, k2: Key, k3: Key)
    requires Chain(k1, k2, k3)
    requires OneMore(s, t3, k3) && OneMore(t3, t2, k2) && OneMore(t2, t1, k1)
    ensures GrownBy(s, t1, k1, k2, k3)
  {
  }

  function Absent(ent: map<Key, nat>, k: Key): nat { if k in ent then 0 else 1 }

  lemma DataKeptTrans(s: Vm, t: Vm, u: Vm)
    requires Inv(s) && Inv(t) && Inv(u) && DataKept(s, t) && DataKept(t, u)
    ensures DataKept(s, u)
  {
  }

  lemma AllocKept(s: Vm, zero: bool)
    requires Inv(s) && s.free != []
    ensures DataKept(s, AllocF(s, zero))
  {
    AllocInv(s, zero);
  }

  /** The three tables below the PML4, made as far as they are missing. */
  ghost function EnsurePathF(s: Vm, k1: Key, k2: Key, k3: Key): (t: Vm)
    requires Inv(s) && Chain(k1, k2, k3) && Parent(k3) in s.ent
    requires (k1 in s.ent ==> k2 in s.ent) && (k2 in s.ent ==> k3 in s.ent)
    requires |s.free| >= Absent(s.ent, k1) + Absent(s.ent, k2) + Absent(s.ent, k3)
    ensures Inv(t) && DataKept(s, t) && GrownBy(s.ent, t.ent, k1, k2, k3)
    ensures k1 in t.ent && k2 in t.ent && k3 in t.ent
    ensures t.hold == s.hold && t.tlb == s.tlb && t.cr3 == s.cr3 && t.khalf == s.khalf
    ensures |t.free| == |s.free| - Absent(s.ent, k1) - Absent(s.ent, k2) - Absent(s.ent, k3)
    ensures k1 in s.ent ==> t == s
  {
    hide Inv, DataKept, GrownBy, NewTableF;
    var t3 := EnsureF(s, k3);
    var t2 := EnsureF(t3, k2);
    var t1 := EnsureF(t2, k1);
    DataKeptTrans(s, t3, t2);
    DataKeptTrans(s, t2, t1);
    GrowThrice(s.ent, t3.ent, t2.ent, t1.ent, k1, k2, k3);
    t1
  }

  /** walk_page with create == 1. */
  ghost function WalkCreateF(s: Vm, r: nat, v: nat): (t: Vm)
    requires Inv(s) && Space(s, r) && Lower(v) && |s.free| >= Missing(s.ent, r, v)
    ensures Inv(t) && DataKept(s, t) && Grown(s.ent, t.ent, r, v)
    ensures K1(r, v) in t.ent && K2(r, v) in t.ent && K3(r, v) in t.ent
    ensures t.hold == s.hold && t.tlb == s.tlb && t.cr3 == s.cr3 && t.khalf == s.khalf
    ensures |t.free| == |s.free| - Missing(s.ent, r, v)
    ensures K1(r, v) in s.ent ==> t == s
  {
    Ancestors(r, v);
    TablesAbove(s, r, v);
    EnsurePathF(s, K1(r, v), K2(r, v), K3(r, v))
  }

  /** Store the leaf word of a page whose PT exists, and invalidate it. */
  ghost function LeafF(s: Vm, k: Key, f: nat, flags: nat): (t: Vm)
    requires Inv(s) && k.level == 0 && Parent(k) in s.ent && k !in s.ent
    requires f < |s.mem| && s.role[f].Data? && flags < 4096 && flags % 2 == 1
    ensures Inv(t) && DataKept(s, t)
    ensures t.ent == s.ent[k := Entry(f, flags)] && t.free == s.free
    ensures t.hold == s.hold[f := s.hold[f] - 1]
    ensures t.tlb == s.tlb - {k.p} && t.cr3 == s.cr3 && t.khalf == s.khalf
  {
    EntryParts(f, flags);
    assert NamedAt(s, Parent(k));
    LinkInv(s, k, Entry(f, flags));
    DropTlbInv(LinkF(s, k, Entry(f, flags)), k.p);
    DropTlb(LinkF(s, k, Entry(f, flags)), k.p)
  }

  lemma PutThenDrop(m: map<Key, nat>, k: Key, w: nat)
    requires k !in m
    ensures m[k := w] - {k} == m
  {
  }

  lemma InsertAt(s: Vm, k: Key, k1: Key, k2: Key, k3: Key, f: nat, flags: nat)
    requires Inv(s) && Chain(k1, k2, k3) && Parent(k3) in s.ent && Parent(k) == k1 && k.level == 0
    requires (k1 in s.ent ==> k2 in s.ent) && (k2 in s.ent ==> k3 in s.ent)
    requires |s.free| >= Absent(s.ent, k1) + Absent(s.ent, k2) + Absent(s.ent, k3)
    requires k !in s.ent && f < |s.mem| && s.role[f].Data? && flags < 4096 && flags % 2 == 1
    ensures var u := EnsurePathF(s, k1, k2, k3);
      k !in u.ent && u.role[f].Data? && DataKept(s, LeafF(u, k, f, flags))
      && GrownBy(s.ent, LeafF(u, k, f, flags).ent - {k}, k1, k2, k3)
  {
    var u := EnsurePathF(s, k1, k2, k3);
    DataKeptTrans(s, u, LeafF(u, k, f, flags));
    PutThenDrop(u.ent, k, Entry(f, flags));
  }

  lemma InsertReady(s: Vm, r: nat, v: nat, f: nat, flags: nat)
    requires Inv(s) && Space(s, r) && Lower(v) && |s.free| >= Missing(s.ent, r, v)
    requires K0(r, v) !in s.ent && f < |s.mem| && s.role[f].Data?
    requires flags < 4096 && flags % 2 == 1
    ensures var u := WalkCreateF(s, r, v);
      K0(r, v) !in u.ent && f < |u.mem| && u.role[f].Data? && Parent(K0(r, v)) in u.ent
  {
    Ancestors(r, v);
  }

  /** insert_page on an empty leaf: the frame is named by one entry more. */
  ghost function InsertF(s: Vm, r: nat, v: nat, f: nat, flags: nat): (t: Vm)
    requires Inv(s) && Space(s, r) && Lower(v) && |s.free| >= Missing(s.ent, r, v)
    requires K0(r, v) !in s.ent && f < |s.mem| && s.role[f].Data?
    requires flags < 4096 && flags % 2 == 1
    ensures Inv(t) && DataKept(s, t)
    ensures K0(r, v) in t.ent && t.ent[K0(r, v)] == Entry(f, flags)
    ensures Grown(s.ent, t.ent - {K0(r, v)}, r, v)
    ensures K1(r, v) in t.ent && K2(r, v) in t.ent && K3(r, v) in t.ent
    ensures t.hold == s.hold[f := s.hold[f] - 1]
    ensures t.tlb == s.tlb - {v} && t.cr3 == s.cr3 && t.khalf == s.khalf
    ensures |t.free| == |s.free| - Missing(s.ent, r, v)
  {
    InsertReady(s, r, v, f, flags);
    InsertGood(s, r, v, f, flags);
    LeafF(WalkCreateF(s, r, v), K0(r, v), f, flags)
  }

  lemma InsertGood(s: Vm, r: nat, v: nat, f: nat, flags: nat)
    requires Inv(s) && Space(s, r) && Lower(v) && |s.free| >= Missing(s.ent, r, v)
    requires K0(r, v) !in s.ent && f < |s.mem| && s.role[f].Data?
    requires flags < 4096 && flags % 2 == 1
    requires var u := WalkCreateF(s, r, v);
      K0(r, v) !in u.ent && f < |u.mem| && u.role[f].Data? && Parent(K0(r, v)) in u.ent
    ensures var t := LeafF(WalkCreateF(s, r, v), K0(r, v), f, flags);
      DataKept(s, t) && Grown(s.ent, t.ent - {K0(r, v)}, r, v)
  {
    hide K1, K2, K3, Inv, Chain;
    Ancestors(r, v);
    TablesAbove(s, r, v);
    InsertAt(s, K0(r, v), K1(r, v), K2(r, v), K3(r, v), f, flags);
  }

  lemma OverwriteReady(s: Vm, r: nat, v: nat, f: nat)
    requires Inv(s) && Space(s, r) && Lower(v) && K0(r, v) in s.ent && f < |s.mem| && s.role[f].Data?
    ensures Sized(s) && Parent(K0(r, v)) in s.ent && FrameOf(s.ent[K0(r, v)]) < |s.mem|
    ensures s.role[FrameOf(s.ent[K0(r, v)])].Data?
    ensures var u := UnlinkF(s, K0(r, v));
      && Inv(u) && K0(r, v) !in u.ent && Parent(K0(r, v)) in u.ent && |u.mem| == |s.mem| && u.role[f].Data?
  {
    Ancestors(r, v);
    TablesAbove(s, r, v);
    assert NamedAt(s, K0(r, v));
    NoChildren(s, K0(r, v));
    UnlinkInv(s, K0(r, v));
  }

  lemma NoChildren(s: Vm, k: Key)
    requires Inv(s) && k.level == 0
    ensures Childless(s.ent, k)
  {
    forall c | c in s.ent && c.level < 4 ensures Parent(c) != k { assert NamedAt(s, c); }
  }

  /** insert_page on a leaf that is in use: its word is overwritten, and the frame that it
      named keeps its count. */
  ghost function OverwriteF(s: Vm, r: nat, v: nat, f: nat, flags: nat): (t: Vm)
    requires Inv(s) && Space(s, r) && Lower(v) && K0(r, v) in s.ent && f < |s.mem| && s.role[f].Data?
    requires flags < 4096 && flags % 2 == 1
    ensures Inv(t) && t.ent == s.ent[K0(r, v) := Entry(f, flags)] && t.count == s.count && t.free == s.free
    ensures t.tlb == s.tlb - {v} && t.cr3 == s.cr3 && t.khalf == s.khalf && Sized(s) && FrameOf(s.ent[K0(r, v)]) < |s.mem|
    ensures var g := FrameOf(s.ent[K0(r, v)]);
      t.hold == s.hold[g := s.hold[g] + 1][f := s.hold[g := s.hold[g] + 1][f] - 1]
  {
    OverwriteReady(s, r, v, f);
    assert (s.ent - {K0(r, v)})[K0(r, v) := Entry(f, flags)] == s.ent[K0(r, v) := Entry(f, flags)];
    LeafF(UnlinkF(s, K0(r, v)), K0(r, v), f, flags)
  }

  /** The frame that was overwritten is lost: its count stays one above what entries and
      the kernel account for, and while that is so it is not free. */
  lemma OverwriteLoses(s: Vm, r: nat, v: nat, f: nat, flags: nat)
    requires Inv(s) && Space(s, r) && Lower(v) && K0(r, v) in s.ent && f < |s.mem| && s.role[f].Data?
    requires flags < 4096 && flags % 2 == 1 && FrameOf(s.ent[K0(r, v)]) != f
    ensures var t, g := OverwriteF(s, r, v, f, flags), FrameOf(s.ent[K0(r, v)]);
      && g < |s.count| == |t.count| && g < |s.hold| == |t.hold| && t.count[g] == s.count[g]
      && |Refs(t.ent, g)| == |Refs(s.ent, g)| - 1 && t.count[g] == |Refs(t.ent, g)| + s.hold[g] + 1
    ensures var t, g := OverwriteF(s, r, v, f, flags), FrameOf(s.ent[K0(r, v)]);
      forall u: Vm :: Inv(u) && g < |u.hold| == |u.mem| && u.hold[g] == t.hold[g] && s.hold[g] >= 0 ==> g !in u.free
  {
    var t, g := OverwriteF(s, r, v, f, flags), FrameOf(s.ent[K0(r, v)]);
    SizedAll(s);
    SizedAll(t);
    assert CountAt(t, g) && CountAt(s, g);
    forall u: Vm | Inv(u) && g < |u.hold| == |u.mem| && u.hold[g] == t.hold[g] && s.hold[g] >= 0 ensures g !in u.free {
      assert CountAt(u, g);
    }
  }

  /** One word of memory changes. */
  lemma OverwriteParts(s: Vm, r: nat, v: nat, f: nat, flags: nat)
    requires Inv(s) && Space(s, r) && Lower(v) && K0(r, v) in s.ent && f < |s.mem| && s.role[f].Data?
    requires flags < 4096 && flags % 2 == 1
    ensures Sized(s) && Named(s) && Parent(K0(r, v)) in s.ent && FrameOf(Entry(f, flags)) == f
    ensures OverwriteF(s, r, v, f, flags).mem == StoreF(s, K0(r, v), Entry(f, flags))
    ensures OverwriteF(s, r, v, f, flags).role == s.role && FrameOf(s.ent[K0(r, v)]) < |s.mem|
  {
    OverwriteReady(s, r, v, f);
    EntryParts(f, flags);
    var k := K0(r, v);
    var t := FrameOf(s.ent[Parent(k)]);
    assert NamedAt(s, Parent(k));
    WordTwice(s.mem, t, Slot(k), 0, Entry(f, flags));
  }

  lemma WordTwice(m: seq<Frame>, t: nat, i: nat, a: nat, b: nat)
    requires t < |m| && i < 512
    ensures m[t := m[t][i := a]][t := m[t][i := a][i := b]] == m[t := m[t][i := b]]
  {
    assert m[t][i := a][i := b] == m[t][i := b];
  }

  /** Insertion is the walk and the store. */
  lemma InsertSplits(s: Vm, r: nat, v: nat, f: nat, flags: nat)
    requires Inv(s) && Space(s, r) && Lower(v) && |s.free| >= Missing(s.ent, r, v)
    requires f < |s.mem| && s.role[f].Data? && flags < 4096 && flags % 2 == 1
    ensures var u := WalkCreateF(s, r, v);
      && f < |u.mem| && u.role[f].Data? && Parent(K0(r, v)) in u.ent && Space(u, r)
      && (K0(r, v) in s.ent ==> u == s)
      && (K0(r, v) !in s.ent ==> K0(r, v) !in u.ent && InsertF(s, r, v, f, flags) == LeafF(u, K0(r, v), f, flags))
  {
    Ancestors(r, v);
    TablesAbove(s, r, v);
  }

  /** It changes no other translation. */
  lemma OverwriteChangesOneKey(s: Vm, r: nat, v: nat, f: nat, flags: nat, q: nat, x: nat)
    requires Inv(s) && Space(s, r) && Lower(v) && K0(r, v) in s.ent && f < |s.mem| && s.role[f].Data?
    requires flags < 4096 && flags % 2 == 1 && Space(s, q) && Lower(x)
    ensures var t := OverwriteF(s, r, v, f, flags);
      && q < |s.mem| && q < |t.mem|
      && Walk(t.mem, q, x) == if q == r && x == v then Entry(f, flags) else Walk(s.mem, q, x)
  {
    hide Inv, Walk, OverwriteF;
    var t := OverwriteF(s, r, v, f, flags);
    WalkIsLookup(s, q, x);
    WalkIsLookup(t, q, x);
  }

  /** invlpg */
  ghost function DropTlb(s: Vm, v: nat): Vm {
    s.(tlb := s.tlb - {v})
  }

  lemma TablesSame(s: Vm, t: Vm)
    requires Inv(s) && t == s.(tlb := t.tlb, cr3 := t.cr3)
    ensures Inv(t)
  {
    forall k | k in t.ent ensures NamedAt(t, k) { assert NamedAt(s, k); }
    forall g | 0 <= g < |t.mem| ensures RoleAt(t, g) { assert RoleAt(s, g); }
    forall g | 0 <= g < |t.mem| ensures CountAt(t, g) { assert CountAt(s, g); }
    TablesKept(s, t);
  }

  lemma DropTlbInv(s: Vm, v: nat)
    requires Inv(s)
    ensures Inv(DropTlb(s, v))
  {
    TablesSame(s, DropTlb(s, v));
  }

  // ----------------------------------------------------------------- remove

  /** Frames that are not tables keep their content and do not become tables. */
  ghost predicate MemKept(s: Vm, t: Vm)
    requires Sized(s) && Sized(t)
  {
    && |t.mem| == |s.mem|
    && forall f {:trigger t.mem[f]} {:trigger t.role[f]} ::
         0 <= f < |s.mem| && !s.role[f].Table? ==> !t.role[f].Table? && t.mem[f] == s.mem[f]
  }

  /** Give back the frame named by the childless node k and clear its word. */
  ghost function DropNodeF(s: Vm, k: Key): (t: Vm)
    requires Inv(s) && k in s.ent && k.level < 4 && Childless(s.ent, k)
    requires NamedAt(s, k) && s.hold[FrameOf(s.ent[k])] >= 0
    ensures Inv(t) && MemKept(s, t) && t.ent == s.ent - {k} && t.hold == s.hold
    ensures t.tlb == s.tlb && t.cr3 == s.cr3 && t.khalf == s.khalf
    ensures t.count == s.count[FrameOf(s.ent[k]) := s.count[FrameOf(s.ent[k])] - 1]
  {
    assert ClosedAt(s.ent, k) && NamedAt(s, Parent(k));
    var f := FrameOf(s.ent[k]);
    UnlinkInv(s, k);
    LastReference(UnlinkF(s, k), f);
    FreeInv(UnlinkF(s, k), f);
    FreeF(UnlinkF(s, k), f)
  }

  lemma LastReference(s: Vm, f: nat)
    requires Inv(s) && f < |s.mem| && s.hold[f] >= 1
    ensures s.count[f] == 1 ==> Refs(s.ent, f) == {}
  {
    assert CountAt(s, f);
  }

  lemma LeafChildless(ent: map<Key, nat>, k: Key)
    requires k.level == 0
    ensures Childless(ent, k)
  {
  }

  /** remove_page: does nothing without a PT; otherwise clears the one entry. */
  ghost function RemoveF(s: Vm, r: nat, v: nat): (t: Vm)
    requires Inv(s) && Space(s, r) && Lower(v)
    requires K0(r, v) in s.ent ==> NamedAt(s, K0(r, v)) && s.hold[FrameOf(s.ent[K0(r, v)])] >= 0
    ensures Inv(t) && MemKept(s, t) && t.ent == s.ent - {K0(r, v)} && t.hold == s.hold
    ensures t.tlb == (if K1(r, v) in s.ent then s.tlb - {v} else s.tlb)
    ensures t.cr3 == s.cr3 && t.khalf == s.khalf
    ensures K0(r, v) !in s.ent ==> t == s.(tlb := t.tlb)
  {
    TablesAbove(s, r, v);
    if K1(r, v) !in s.ent then s
    else if K0(r, v) !in s.ent then DropTlbInv(s, v); DropTlb(s, v)
    else
      LeafChildless(s.ent, K0(r, v));
      DropTlbInv(DropNodeF(s, K0(r, v)), v);
      DropTlb(DropNodeF(s, K0(r, v)), v)
  }

  /** remove_page frees first and clears the word afterwards; the order is immaterial. */
  lemma RemoveIs(s: Vm, r: nat, v: nat)
    requires Inv(s) && Space(s, r) && Lower(v) && K0(r, v) in s.ent
    requires NamedAt(s, K0(r, v)) && s.hold[FrameOf(s.ent[K0(r, v)])] >= 0
    ensures Parent(K0(r, v)) in s.ent
    ensures var k, f := K0(r, v), FrameOf(s.ent[K0(r, v)]);
      var t := FreeF(s, f);
      RemoveF(s, r, v) == Vm(StoreF(s, k, 0), t.count, t.free, s.ent - {k}, t.role, s.hold,
                             s.khalf, s.tlb - {v}, s.cr3)
  {
    Ancestors(r, v);
    TablesAbove(s, r, v);
    LeafChildless(s.ent, K0(r, v));
    var f := FrameOf(s.ent[K0(r, v)]);
    assert s.role[f := Data] == s.role;
    assert s.hold[f := s.hold[f] + 1][f := s.hold[f]] == s.hold;
  }

  // ------------------------------------------- the table as a partial map

  lemma GrownLeaf(s: map<Key, nat>, t: map<Key, nat>, r: nat, v: nat, k: Key)
    requires Grown(s, t, r, v) && k.level == 0
    ensures Get(t, k) == Get(s, k)
  {
    hide K1, K2, K3;
  }

  lemma GrownSpace(s: map<Key, nat>, t: map<Key, nat>, r: nat, v: nat, q: nat)
    requires Grown(s, t, r, v)
    ensures K4(q) in t <==> K4(q) in s
  {
    hide K1, K2, K3;
  }

  /** Walking with create adds tables but no translation, in any address space. */
  lemma WalkCreateTranslatesNothing(s: Vm, r: nat, v: nat, q: nat, x: nat)
    requires Inv(s) && Space(s, r) && Lower(v) && |s.free| >= Missing(s.ent, r, v)
    requires Space(s, q) && Lower(x)
    ensures q < |s.mem| && q < |WalkCreateF(s, r, v).mem|
    ensures Walk(WalkCreateF(s, r, v).mem, q, x) == Walk(s.mem, q, x)
  {
    hide Inv, Walk, WalkCreateF, Missing, Grown, K1, K2, K3, DataKept;
    var t := WalkCreateF(s, r, v);
    GrownSpace(s.ent, t.ent, r, v, q);
    GrownLeaf(s.ent, t.ent, r, v, K0(q, x));
    WalkIsLookup(s, q, x);
    WalkIsLookup(t, q, x);
  }

  lemma DropAt(m: map<Key, nat>, k: Key, n: Key)
    ensures Get(m - {n}, k) == if k == n then 0 else Get(m, k)
  {
  }

  /** insert_page changes exactly one translation: the one of its page, in its
      address space; what it takes from the free list is at most three tables, and
      nothing where the region has its table already. */
  lemma InsertChangesOneKey(s: Vm, r: nat, v: nat, f: nat, flags: nat, q: nat, x: nat)
    requires Inv(s) && Space(s, r) && Lower(v) && |s.free| >= Missing(s.ent, r, v)
    requires K0(r, v) !in s.ent && f < |s.mem| && s.role[f].Data? && flags < 4096 && flags % 2 == 1
    requires Space(s, q) && Lower(x)
    ensures var t := InsertF(s, r, v, f, flags);
      && q < |s.mem| && q < |t.mem|
      && Walk(t.mem, q, x) == (if q == r && x == v then Entry(f, flags) else Walk(s.mem, q, x))
      && |s.free| - 3 <= |t.free| <= |s.free| && (K1(r, v) in s.ent ==> |t.free| == |s.free|)
  {
    hide Inv, Walk, InsertF, Grown, DataKept;
    var t, n := InsertF(s, r, v, f, flags), K0(r, v);
    TablesAbove(s, r, v);
    GrownSpace(s.ent, t.ent - {n}, r, v, q);
    GrownLeaf(s.ent, t.ent - {n}, r, v, K0(q, x));
    DropAt(t.ent, K0(q, x), n);
    WalkIsLookup(s, q, x);
    WalkIsLookup(t, q, x);
  }

  /** remove_page deletes exactly one translation. */
  lemma RemoveDeletesOneKey(s: Vm, r: nat, v: nat, q: nat, x: nat)
    requires Inv(s) && Space(s, r) && Lower(v) && Space(s, q) && Lower(x)
    requires K0(r, v) in s.ent ==> NamedAt(s, K0(r, v)) && s.hold[FrameOf(s.ent[K0(r, v)])] >= 0
    ensures var t := RemoveF(s, r, v);
      && q < |s.mem| && q < |t.mem|
      && Walk(t.mem, q, x) == if q == r && x == v then 0 else Walk(s.mem, q, x)
  {
    hide Inv, Walk, RemoveF, MemKept;
    var t := RemoveF(s, r, v);
    DropAt(s.ent, K0(q, x), K0(r, v));
    WalkIsLookup(s, q, x);
    WalkIsLookup(t, q, x);
  }
}
