/** Physical memory, the frame allocator and the four-level tables as one value.

  `ent` is the abstract content of all live page tables: the word stored for
  every node of every address space.  A node is (root frame, level, p): level 0
  is a user page with page number p, level 1 a PT, 2 a PD, 3 a PDPT, and level
  4 the PML4 itself, whose "entry" is the process's pgdir pointer.  `role` says
  what each frame is used for, and `hold` how many of its references belong to
  the kernel rather than to an entry (signed: fork installs an entry before it
  counts it).
*/
module Vm {
  import opened Words

  datatype Key = Key(root: nat, level: nat, p: nat)

  datatype Role = Free | Data | Table(key: Key)

  datatype Vm = Vm(
    mem: seq<Frame>,
    count: seq<int>,
    free: seq<nat>,
    ent: map<Key, nat>,
    role: seq<Role>,
    hold: seq<int>,
    khalf: seq<nat>,
    tlb: map<nat, nat>,
    cr3: nat)

  function Child(k: Key, i: nat): Key
    requires k.level > 0
  {
    Key(k.root, k.level - 1, k.p * 512 + i)
  }

  /** p / 512, one digit dropped (UpIsDiv). */
  function Up(p: nat): nat { if p < 512 then 0 else 1 + Up(p - 512) }

  lemma {:induction false} UpIsDiv(p: nat)
    ensures Up(p) == p / 512
  {
    if p >= 512 { UpIsDiv(p - 512); }
  }

  function Parent(k: Key): Key { Key(k.root, k.level + 1, Up(k.p)) }

  function Slot(k: Key): nat { k.p % 512 }

  lemma ChildOfParent(k: Key)
    ensures Child(Parent(k), Slot(k)) == k
    ensures Slot(k) < 512
  {
    UpIsDiv(k.p);
  }

  lemma ParentOfChild(k: Key, i: nat)
    requires k.level > 0 && i < 512
    ensures Parent(Child(k, i)) == k && Slot(Child(k, i)) == i
  {
    UpIsDiv(k.p * 512 + i);
  }

  /** The word a node's parent stores for it; 0 is "nothing there". */
  function Get(ent: map<Key, nat>, k: Key): nat { if k in ent then ent[k] else 0 }

  /** All nodes whose word names frame f. */
  ghost function Refs(ent: map<Key, nat>, f: nat): set<Key> {
    set k | k in ent && FrameOf(ent[k]) == f
  }

  /** How many slots of a level-`level` table belong to user addresses. */
  function UserSlots(level: nat): nat { if level == 4 then 256 else 512 }

  // ---------------------------------------------------------------- invariant

  ghost predicate Sized(s: Vm) {
    && |s.count| == |s.mem| && |s.role| == |s.mem| && |s.hold| == |s.mem|
    && |s.khalf| == 256
  }

  /** The free list has no duplicates and holds exactly the count-0 frames. */
  ghost predicate FreeExact(count: seq<int>, free: seq<nat>) {
    && (forall i :: 0 <= i < |free| ==> free[i] < |count| && count[free[i]] == 0)
    && (forall i, j :: 0 <= i < j < |free| ==> free[i] != free[j])
    && (forall f :: 0 <= f < |count| ==> count[f] >= 0 && (count[f] == 0 ==> f in free))
  }

  ghost predicate RoleAt(s: Vm, f: nat)
    requires Sized(s) && f < |s.mem|
  {
    && (s.role[f].Free? <==> s.count[f] == 0)
    && (s.role[f].Table? ==>
          && s.role[f].key.level >= 1 && s.role[f].key in s.ent
          && FrameOf(s.ent[s.role[f].key]) == f && s.hold[f] == 0)
  }

  ghost predicate RolesOk(s: Vm)
    requires Sized(s)
  {
    forall f {:trigger RoleAt(s, f)} :: 0 <= f < |s.mem| ==> RoleAt(s, f)
  }

  /** The count of a frame is exact: one for every entry that names it, plus
      what the kernel itself holds. */
  ghost predicate CountAt(s: Vm, f: nat)
    requires Sized(s) && f < |s.mem|
  {
    s.count[f] == |Refs(s.ent, f)| + s.hold[f]
  }

  ghost predicate CountsExact(s: Vm)
    requires Sized(s)
  {
    forall f {:trigger CountAt(s, f)} :: 0 <= f < |s.mem| ==> CountAt(s, f)
  }

  ghost predicate NamedAt(s: Vm, k: Key)
    requires Sized(s) && k in s.ent
  {
    && k.level <= 4 && FrameOf(s.ent[k]) < |s.mem|
    && (k.level == 0 ==> s.role[FrameOf(s.ent[k])].Data?)
    && (k.level >= 1 ==> s.role[FrameOf(s.ent[k])] == Table(k))
    && (k.level < 4 ==> Present(s.ent[k]))
    && (k.level == 4 ==> k.p == 0 && FrameOf(s.ent[k]) == k.root)
  }

  /** Every entry names a frame used accordingly; a table frame is named once. */
  ghost predicate Named(s: Vm)
    requires Sized(s)
  {
    forall k {:trigger NamedAt(s, k)} :: k in s.ent ==> NamedAt(s, k)
  }

  ghost predicate ClosedAt(ent: map<Key, nat>, k: Key) {
    k.level < 4 ==> Parent(k) in ent && (k.level == 3 ==> k.p < 256)
  }

  /** The nodes form trees: every node below the root has its parent. */
  ghost predicate Closed(ent: map<Key, nat>) {
    forall k {:trigger ClosedAt(ent, k)} :: k in ent ==> ClosedAt(ent, k)
  }

  /** Word i of the table frame of node k is the entry of its i-th child. */
  ghost predicate StoredAt(s: Vm, k: Key, i: nat)
    requires Sized(s) && k in s.ent && k.level >= 1 && i < 512
    requires FrameOf(s.ent[k]) < |s.mem|
  {
    s.mem[FrameOf(s.ent[k])][i] == Get(s.ent, Child(k, i))
  }

  ghost predicate TablesStored(s: Vm)
    requires Sized(s) && Named(s)
  {
    forall k, i {:trigger StoredAt(s, k, i)} :: k in s.ent && 1 <= k.level && 0 <= i < UserSlots(k.level) ==>
      NamedAt(s, k) && StoredAt(s, k, i)
  }

  ghost predicate KernelAt(s: Vm, k: Key)
    requires Sized(s) && k in s.ent && FrameOf(s.ent[k]) < |s.mem|
  {
    s.mem[FrameOf(s.ent[k])][256..] == s.khalf
  }

  /** Every PML4 carries the kernel's upper half. */
  ghost predicate KernelShared(s: Vm)
    requires Sized(s) && Named(s)
  {
    forall k {:trigger KernelAt(s, k)} :: k in s.ent && k.level == 4 ==> NamedAt(s, k) && KernelAt(s, k)
  }

  ghost predicate Inv(s: Vm) {
    && Sized(s) && FreeExact(s.count, s.free) && RolesOk(s) && CountsExact(s)
    && Named(s) && Closed(s.ent) && TablesStored(s) && KernelShared(s)
  }

  lemma SizedAll(s: Vm)
    requires Inv(s)
    ensures Sized(s)
  {
  }

  // --------------------------------------------------- counting references

  lemma RefsPut(ent: map<Key, nat>, k: Key, w: nat, f: nat)
    requires k !in ent
    ensures |Refs(ent[k := w], f)| == |Refs(ent, f)| + (if FrameOf(w) == f then 1 else 0)
  {
    if FrameOf(w) == f {
      assert Refs(ent[k := w], f) == Refs(ent, f) + {k};
    } else {
      assert Refs(ent[k := w], f) == Refs(ent, f);
    }
  }

  lemma RefsDrop(ent: map<Key, nat>, k: Key, f: nat)
    requires k in ent
    ensures |Refs(ent - {k}, f)| == |Refs(ent, f)| - (if FrameOf(ent[k]) == f then 1 else 0)
  {
    if FrameOf(ent[k]) == f {
      assert Refs(ent - {k}, f) == Refs(ent, f) - {k};
    } else {
      assert Refs(ent - {k}, f) == Refs(ent, f);
    }
  }

  lemma RefsReflag(ent: map<Key, nat>, k: Key, w: nat, f: nat)
    requires k in ent && FrameOf(w) == FrameOf(ent[k])
    ensures Refs(ent[k := w], f) == Refs(ent, f)
  {
  }

  lemma RefsEmpty(s: Vm, f: nat)
    requires Sized(s) && Named(s) && f < |s.mem| && s.role[f].Free?
    ensures Refs(s.ent, f) == {}
    ensures forall k :: k in s.ent ==> FrameOf(s.ent[k]) != f
  {
    forall k | k in s.ent ensures FrameOf(s.ent[k]) != f { assert NamedAt(s, k); }
  }

  lemma RefsPositive(ent: map<Key, nat>, k: Key)
    requires k in ent
    ensures |Refs(ent, FrameOf(ent[k]))| >= 1
  {
    assert k in Refs(ent, FrameOf(ent[k]));
  }

  // ------------------------------------------------------------- primitives

  /** alloc_page: take the head of the free list, held by the kernel. */
  ghost function AllocF(s: Vm, zero: bool): Vm
    requires Sized(s) && s.free != [] && s.free[0] < |s.mem|
  {
    var f := s.free[0];
    Vm(if zero then s.mem[f := ZeroFrame()] else s.mem,
       s.count[f := s.count[f] + 1], s.free[1..], s.ent, s.role[f := Data],
       s.hold[f := s.hold[f] + 1], s.khalf, s.tlb, s.cr3)
  }

  /** free_page: give up one kernel-held reference; the last one frees. */
  ghost function FreeF(s: Vm, f: nat): Vm
    requires Sized(s) && f < |s.mem|
  {
    var last := s.count[f] == 1;
    Vm(s.mem, s.count[f := s.count[f] - 1], if last then [f] + s.free else s.free,
       s.ent, if last then s.role[f := Free] else s.role,
       s.hold[f := s.hold[f] - 1], s.khalf, s.tlb, s.cr3)
  }

  /** pp->count++ */
  ghost function BumpF(s: Vm, f: nat): Vm
    requires Sized(s) && f < |s.mem|
  {
    Vm(s.mem, s.count[f := s.count[f] + 1], s.free, s.ent, s.role,
       s.hold[f := s.hold[f] + 1], s.khalf, s.tlb, s.cr3)
  }

  /** Memory after storing w in the slot of node k. */
  ghost function StoreF(s: Vm, k: Key, w: nat): (m: seq<Frame>)
    requires Sized(s) && Named(s) && Parent(k) in s.ent
    ensures |m| == |s.mem|
  {
    assert NamedAt(s, Parent(k));
    var t := FrameOf(s.ent[Parent(k)]);
    s.mem[t := s.mem[t][Slot(k) := w]]
  }

  /** Store the word w for the absent node k; the entry takes over one reference. */
  ghost function LinkF(s: Vm, k: Key, w: nat): Vm
    requires Sized(s) && Named(s) && Parent(k) in s.ent && FrameOf(w) < |s.mem|
  {
    var f := FrameOf(w);
    Vm(StoreF(s, k, w), s.count, s.free, s.ent[k := w],
       if k.level == 0 then s.role else s.role[f := Table(k)],
       s.hold[f := s.hold[f] - 1], s.khalf, s.tlb, s.cr3)
  }

  /** Clear the word of node k; its reference goes back to the kernel. */
  ghost function UnlinkF(s: Vm, k: Key): Vm
    requires Sized(s) && Named(s) && Parent(k) in s.ent && k in s.ent
  {
    assert NamedAt(s, k);
    var f := FrameOf(s.ent[k]);
    Vm(StoreF(s, k, 0), s.count, s.free, s.ent - {k}, s.role[f := Data],
       s.hold[f := s.hold[f] + 1], s.khalf, s.tlb, s.cr3)
  }

  /** Overwrite the flags of the present page k. */
  ghost function ReflagF(s: Vm, k: Key, w: nat): Vm
    requires Sized(s) && Named(s) && Parent(k) in s.ent
  {
    s.(mem := StoreF(s, k, w), ent := s.ent[k := w])
  }

  /** Make the held frame r the PML4 of a new address space. */
  ghost function RootF(s: Vm, r: nat): Vm
    requires Sized(s) && r < |s.mem|
  {
    Vm(s.mem[r := s.mem[r][..256] + s.khalf], s.count, s.free,
       s.ent[Key(r, 4, 0) := Entry(r, 0)], s.role[r := Table(Key(r, 4, 0))],
       s.hold[r := s.hold[r] - 1], s.khalf, s.tlb, s.cr3)
  }

  /** Forget the pgdir pointer of address space r. */
  ghost function UnrootF(s: Vm, r: nat): Vm
    requires Sized(s) && r < |s.mem|
  {
    Vm(s.mem, s.count, s.free, s.ent - {Key(r, 4, 0)}, s.role[r := Data],
       s.hold[r := s.hold[r] + 1], s.khalf, s.tlb, s.cr3)
  }

  /** Replace the content of a frame that is not a table. */
  ghost function FillF(s: Vm, f: nat, data: Frame): Vm
    requires f < |s.mem|
  {
    s.(mem := s.mem[f := data])
  }

  // ------------------------------------------------- primitives keep Inv

  lemma AllocExact(count: seq<int>, free: seq<nat>)
    requires FreeExact(count, free) && free != []
    ensures FreeExact(count[free[0] := count[free[0]] + 1], free[1..])
  {
    var c', t := count[free[0] := count[free[0]] + 1], free[1..];
    forall f | 0 <= f < |c'| && c'[f] == 0 ensures f in t {
      var i :| 0 <= i < |free| && free[i] == f;
      assert t[i - 1] == f;
    }
  }

  lemma FreeingExact(count: seq<int>, free: seq<nat>, f: nat)
    requires FreeExact(count, free) && f < |count| && count[f] >= 1
    ensures FreeExact(count[f := count[f] - 1], if count[f] == 1 then [f] + free else free)
  {
    var c', t := count[f := count[f] - 1], if count[f] == 1 then [f] + free else free;
    forall g | 0 <= g < |c'| && c'[g] == 0 ensures g in t {
      if g != f {
        var i :| 0 <= i < |free| && free[i] == g;
        assert t[if count[f] == 1 then i + 1 else i] == g;
      } else {
        assert t[0] == f;
      }
    }
  }

  /** Tables are stored as before if no entry and no table frame changed. */
  lemma TablesKept(s: Vm, t: Vm)
    requires Inv(s) && Sized(t) && Named(t)
    requires t.ent == s.ent && t.khalf == s.khalf && |t.mem| == |s.mem|
    requires forall f :: 0 <= f < |s.mem| && s.role[f].Table? ==> t.mem[f] == s.mem[f]
    ensures TablesStored(t) && KernelShared(t)
  {
    forall k, i | k in t.ent && 1 <= k.level && 0 <= i < UserSlots(k.level)
      ensures NamedAt(t, k) && StoredAt(t, k, i)
    {
      assert NamedAt(s, k) && StoredAt(s, k, i);
    }
    forall k | k in t.ent && k.level == 4 ensures NamedAt(t, k) && KernelAt(t, k) {
      assert NamedAt(s, k) && KernelAt(s, k);
    }
  }

  lemma AllocInv(s: Vm, zero: bool)
    requires Inv(s) && s.free != []
    ensures Inv(AllocF(s, zero)) && s.free[0] < |s.mem|
    ensures s.role[s.free[0]].Free? && Refs(s.ent, s.free[0]) == {} && s.hold[s.free[0]] == 0
  {
    var f, t := s.free[0], AllocF(s, zero);
    assert RoleAt(s, f) && CountAt(s, f);
    RefsEmpty(s, f);
    AllocExact(s.count, s.free);
    forall k | k in t.ent ensures NamedAt(t, k) { assert NamedAt(s, k); }
    forall g | 0 <= g < |t.mem| ensures RoleAt(t, g) { assert RoleAt(s, g); }
    forall g | 0 <= g < |t.mem| ensures CountAt(t, g) { assert CountAt(s, g); }
    TablesKept(s, t);
  }

  lemma FreeInv(s: Vm, f: nat)
    requires Inv(s) && f < |s.mem| && s.role[f].Data?
    requires s.count[f] == 1 ==> Refs(s.ent, f) == {}
    ensures Inv(FreeF(s, f))
  {
    var t := FreeF(s, f);
    assert RoleAt(s, f);
    FreeingExact(s.count, s.free, f);
    forall k | k in t.ent ensures NamedAt(t, k) {
      assert NamedAt(s, k);
      assert FrameOf(t.ent[k]) == f ==> k in Refs(s.ent, f);
    }
    forall g | 0 <= g < |t.mem| ensures RoleAt(t, g) { assert RoleAt(s, g); }
    forall g | 0 <= g < |t.mem| ensures CountAt(t, g) { assert CountAt(s, g); }
    TablesKept(s, t);
  }

  lemma BumpInv(s: Vm, f: nat)
    requires Inv(s) && f < |s.mem| && s.role[f].Data?
    ensures Inv(BumpF(s, f))
  {
    var t := BumpF(s, f);
    assert RoleAt(s, f);
    forall k | k in t.ent ensures NamedAt(t, k) { assert NamedAt(s, k); }
    forall g | 0 <= g < |t.mem| ensures RoleAt(t, g) { assert RoleAt(s, g); }
    forall g | 0 <= g < |t.mem| ensures CountAt(t, g) { assert CountAt(s, g); }
    TablesKept(s, t);
  }

  lemma FillInv(s: Vm, f: nat, data: Frame)
    requires Inv(s) && f < |s.mem| && !s.role[f].Table?
    ensures Inv(FillF(s, f, data))
  {
    var t := FillF(s, f, data);
    forall k | k in t.ent ensures NamedAt(t, k) { assert NamedAt(s, k); }
    forall g | 0 <= g < |t.mem| ensures RoleAt(t, g) { assert RoleAt(s, g); }
    forall g | 0 <= g < |t.mem| ensures CountAt(t, g) { assert CountAt(s, g); }
    TablesKept(s, t);
  }

  // ------------------------------------- storing words keeps the tables right

  lemma ChildIs(kk: Key, i: nat, k: Key)
    requires kk.level > 0 && i < 512
    ensures Child(kk, i) == k <==> kk == Parent(k) && i == Slot(k)
  {
    ParentOfChild(kk, i);
    ChildOfParent(k);
  }

  /** t differs from s in what the entry map says about k alone. */
  ghost predicate OnlyAt(s: map<Key, nat>, t: map<Key, nat>, k: Key) {
    && (forall kk :: kk in t && kk != k ==> kk in s && t[kk] == s[kk])
    && (forall kk :: kk in s && kk != k ==> kk in t)
  }

  lemma StoreKeepsSlot(s: Vm, t: Vm, k: Key, w: nat, kk: Key, i: nat)
    requires Inv(s) && k.level < 4 && Parent(k) in s.ent
    requires Sized(t) && Named(t) && t.mem == StoreF(s, k, w)
    requires OnlyAt(s.ent, t.ent, k) && Get(t.ent, k) == w
    requires kk in t.ent && 1 <= kk.level && i < UserSlots(kk.level) && kk != k
    ensures NamedAt(t, kk) && StoredAt(t, kk, i)
  {
    assert NamedAt(t, kk) && NamedAt(s, kk) && NamedAt(s, Parent(k)) && StoredAt(s, kk, i);
    ChildIs(kk, i, k);
  }

  lemma StoreKeepsKernel(s: Vm, t: Vm, k: Key, w: nat, kk: Key)
    requires Inv(s) && k.level < 4 && Parent(k) in s.ent && (k.level == 3 ==> k.p < 256)
    requires Sized(t) && Named(t) && t.mem == StoreF(s, k, w) && t.khalf == s.khalf
    requires OnlyAt(s.ent, t.ent, k)
    requires kk in t.ent && kk.level == 4
    ensures NamedAt(t, kk) && KernelAt(t, kk)
  {
    assert NamedAt(t, kk) && NamedAt(s, kk) && NamedAt(s, Parent(k)) && KernelAt(s, kk);
    if kk == Parent(k) {
      var pf := FrameOf(s.ent[kk]);
      assert t.mem[pf][256..] == s.mem[pf][256..];
    }
  }

  /** Storing w in the slot of k changes what the tables say about k alone. */
  lemma StoreKeepsTables(s: Vm, t: Vm, k: Key, w: nat)
    requires Inv(s) && k.level < 4 && Parent(k) in s.ent && (k.level == 3 ==> k.p < 256)
    requires Sized(t) && Named(t) && t.mem == StoreF(s, k, w) && t.khalf == s.khalf
    requires OnlyAt(s.ent, t.ent, k) && Get(t.ent, k) == w
    requires k in t.ent && k.level >= 1 ==>
      k !in s.ent && FrameOf(w) < |s.mem|
      && s.mem[FrameOf(w)] == ZeroFrame() && !s.role[FrameOf(w)].Table?
    ensures TablesStored(t) && KernelShared(t)
  {
    forall kk, i | kk in t.ent && 1 <= kk.level && 0 <= i < UserSlots(kk.level)
      ensures NamedAt(t, kk) && StoredAt(t, kk, i)
    {
      if kk == k {
        assert NamedAt(t, k) && NamedAt(s, Parent(k));
        ParentOfChild(k, i);
        assert Child(k, i) in s.ent ==> ClosedAt(s.ent, Child(k, i));
        assert Child(k, i) !in t.ent;
      } else {
        StoreKeepsSlot(s, t, k, w, kk, i);
      }
    }
    forall kk | kk in t.ent && kk.level == 4 ensures NamedAt(t, kk) && KernelAt(t, kk) {
      StoreKeepsKernel(s, t, k, w, kk);
    }
  }

  lemma LinkInv(s: Vm, k: Key, w: nat)
    requires Inv(s) && k !in s.ent && k.level < 4 && Parent(k) in s.ent
    requires k.level == 3 ==> k.p < 256
    requires Present(w) && FrameOf(w) < |s.mem| && s.role[FrameOf(w)].Data?
    requires k.level >= 1 ==>
      Refs(s.ent, FrameOf(w)) == {} && s.hold[FrameOf(w)] == 1 && s.mem[FrameOf(w)] == ZeroFrame()
    ensures Inv(LinkF(s, k, w))
  {
    var t := LinkF(s, k, w);
    assert NamedAt(s, Parent(k));
    LinkNamed(s, k, w);
    forall g | 0 <= g < |t.mem| ensures RoleAt(t, g) { assert RoleAt(s, g); }
    forall g | 0 <= g < |t.mem| ensures CountAt(t, g) {
      assert CountAt(s, g);
      RefsPut(s.ent, k, w, g);
    }
    forall kk | kk in t.ent ensures ClosedAt(t.ent, kk) { assert ClosedAt(s.ent, kk); }
    StoreKeepsTables(s, t, k, w);
  }

  lemma LinkNamed(s: Vm, k: Key, w: nat)
    requires Inv(s) && k !in s.ent && k.level < 4 && Parent(k) in s.ent
    requires Present(w) && FrameOf(w) < |s.mem| && s.role[FrameOf(w)].Data?
    requires k.level >= 1 ==> Refs(s.ent, FrameOf(w)) == {}
    ensures Named(LinkF(s, k, w))
  {
    var f, t := FrameOf(w), LinkF(s, k, w);
    assert NamedAt(s, Parent(k));
    forall kk | kk in t.ent ensures NamedAt(t, kk) {
      if kk != k {
        assert NamedAt(s, kk);
        assert FrameOf(s.ent[kk]) == f ==> kk in Refs(s.ent, f);
      }
    }
  }

  lemma ReflagInv(s: Vm, k: Key, w: nat)
    requires Inv(s) && k in s.ent && k.level == 0 && Present(w) && Parent(k) in s.ent
    requires FrameOf(w) == FrameOf(s.ent[k])
    ensures Inv(ReflagF(s, k, w))
  {
    var t := ReflagF(s, k, w);
    assert ClosedAt(s.ent, k) && NamedAt(s, Parent(k));
    assert NamedAt(s, k);
    forall kk | kk in t.ent ensures NamedAt(t, kk) { assert NamedAt(s, kk); }
    forall g | 0 <= g < |t.mem| ensures RoleAt(t, g) { assert RoleAt(s, g); }
    forall g | 0 <= g < |t.mem| ensures CountAt(t, g) {
      assert CountAt(s, g);
      RefsReflag(s.ent, k, w, g);
    }
    forall kk | kk in t.ent ensures ClosedAt(t.ent, kk) { assert ClosedAt(s.ent, kk); }
    StoreKeepsTables(s, t, k, w);
  }

  ghost predicate Childless(ent: map<Key, nat>, k: Key) {
    forall kk :: kk in ent && kk.level < 4 ==> Parent(kk) != k
  }

  lemma UnlinkInv(s: Vm, k: Key)
    requires Inv(s) && k in s.ent && k.level < 4 && Parent(k) in s.ent && Childless(s.ent, k)
    ensures Inv(UnlinkF(s, k))
  {
    var t := UnlinkF(s, k);
    assert ClosedAt(s.ent, k);
    assert NamedAt(s, k) && NamedAt(s, Parent(k));
    forall kk | kk in t.ent ensures NamedAt(t, kk) { assert NamedAt(s, kk); }
    forall g | 0 <= g < |t.mem| ensures RoleAt(t, g) { assert RoleAt(s, g); }
    forall g | 0 <= g < |t.mem| ensures CountAt(t, g) {
      assert CountAt(s, g);
      RefsDrop(s.ent, k, g);
    }
    forall kk | kk in t.ent ensures ClosedAt(t.ent, kk) { assert ClosedAt(s.ent, kk); }
    StoreKeepsTables(s, t, k, 0);
  }

  lemma RootInv(s: Vm, r: nat)
    requires Inv(s) && r < |s.mem| && s.role[r].Data? && Refs(s.ent, r) == {} && s.hold[r] == 1
    requires forall i :: 0 <= i < 256 ==> s.mem[r][i] == 0
    ensures Key(r, 4, 0) !in s.ent && Inv(RootF(s, r))
  {
    var k, t := Key(r, 4, 0), RootF(s, r);
    RootNamed(s, r);
    forall g | 0 <= g < |t.mem| ensures RoleAt(t, g) { assert RoleAt(s, g); }
    forall g | 0 <= g < |t.mem| ensures CountAt(t, g) {
      assert CountAt(s, g);
      RefsPut(s.ent, k, Entry(r, 0), g);
    }
    forall kk | kk in t.ent ensures ClosedAt(t.ent, kk) { assert ClosedAt(s.ent, kk); }
    RootTables(s, r);
  }

  lemma RootNamed(s: Vm, r: nat)
    requires Inv(s) && r < |s.mem| && s.role[r].Data? && Refs(s.ent, r) == {}
    ensures Key(r, 4, 0) !in s.ent && Named(RootF(s, r))
  {
    var k, t := Key(r, 4, 0), RootF(s, r);
    assert k in s.ent ==> NamedAt(s, k);
    assert k in s.ent ==> k in Refs(s.ent, r);
    forall kk | kk in t.ent ensures NamedAt(t, kk) {
      if kk != k {
        assert NamedAt(s, kk);
        assert FrameOf(s.ent[kk]) == r ==> kk in Refs(s.ent, r);
      }
    }
  }

  lemma RootTables(s: Vm, r: nat)
    requires Inv(s) && r < |s.mem| && s.role[r].Data? && Key(r, 4, 0) !in s.ent
    requires forall i :: 0 <= i < 256 ==> s.mem[r][i] == 0
    requires Named(RootF(s, r))
    ensures TablesStored(RootF(s, r)) && KernelShared(RootF(s, r))
  {
    var k, t := Key(r, 4, 0), RootF(s, r);
    forall kk, i | kk in t.ent && 1 <= kk.level && 0 <= i < UserSlots(kk.level)
      ensures NamedAt(t, kk) && StoredAt(t, kk, i)
    {
      assert NamedAt(t, kk);
      ParentOfChild(kk, i);
      if kk != k {
        assert NamedAt(s, kk) && StoredAt(s, kk, i);
      } else {
        assert Child(k, i) in s.ent ==> ClosedAt(s.ent, Child(k, i));
        assert Child(k, i) !in s.ent;
      }
    }
    forall kk | kk in t.ent && kk.level == 4 ensures NamedAt(t, kk) && KernelAt(t, kk) {
      assert NamedAt(t, kk);
      if kk != k { assert NamedAt(s, kk) && KernelAt(s, kk); }
    }
  }

  lemma UnrootInv(s: Vm, r: nat)
    requires Inv(s) && Key(r, 4, 0) in s.ent && r < |s.mem|
    requires forall k :: k in s.ent && k.root == r ==> k == Key(r, 4, 0)
    ensures Inv(UnrootF(s, r))
  {
    var k, t := Key(r, 4, 0), UnrootF(s, r);
    UnrootNamed(s, r);
    assert NamedAt(s, k);
    forall g | 0 <= g < |t.mem| ensures CountAt(t, g) {
      assert CountAt(s, g);
      RefsDrop(s.ent, k, g);
    }
    forall kk | kk in t.ent ensures ClosedAt(t.ent, kk) { assert ClosedAt(s.ent, kk); }
    forall kk, i | kk in t.ent && 1 <= kk.level && 0 <= i < UserSlots(kk.level)
      ensures NamedAt(t, kk) && StoredAt(t, kk, i)
    {
      assert NamedAt(s, kk) && NamedAt(t, kk) && StoredAt(s, kk, i);
    }
    forall kk | kk in t.ent && kk.level == 4 ensures NamedAt(t, kk) && KernelAt(t, kk) {
      assert NamedAt(s, kk) && NamedAt(t, kk) && KernelAt(s, kk);
    }
  }

  lemma UnrootNamed(s: Vm, r: nat)
    requires Inv(s) && Key(r, 4, 0) in s.ent && r < |s.mem|
    ensures Named(UnrootF(s, r)) && RolesOk(UnrootF(s, r))
  {
    var k, t := Key(r, 4, 0), UnrootF(s, r);
    assert NamedAt(s, k);
    forall kk | kk in t.ent ensures NamedAt(t, kk) { assert NamedAt(s, kk); }
    forall g | 0 <= g < |t.mem| ensures RoleAt(t, g) { assert RoleAt(s, g); }
  }
}
