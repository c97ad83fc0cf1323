/** Frames that get their content later.  Mapping pages neither reads nor moves what data
    frames hold: filling them before or after comes to the same. */
module FillLater {
  import opened Words
  import opened Vm
  import opened PageTable
  import opened Kept
  import opened ExecSpace

  /** u is t but for the content of the frames d, none of which is a table. */
  ghost predicate Lags(t: Vm, u: Vm, d: set<nat>) {
    && Inv(t) && Inv(u) && Sized(t) && Sized(u) && u == t.(mem := u.mem) && |u.mem| == |t.mem|
    && forall f {:trigger t.role[f]} {:trigger u.mem[f]} {:trigger t.mem[f]} :: 0 <= f < |t.mem| ==>
         if f in d then t.role[f].Data? else u.mem[f] == t.mem[f]
  }

  lemma LagsSelf(t: Vm)
    requires Inv(t)
    ensures Lags(t, t, {})
  {
  }

  /** Once all frames are filled nothing differs. */
  lemma LagsEnd(t: Vm, u: Vm)
    requires Lags(t, u, {})
    ensures t == u
  {
    hide Inv;
    assert t.mem == u.mem;
  }

  /** The head of the free list is taken and filled, here and there. */
  lemma LagsTake(t: Vm, u: Vm, d: set<nat>, a: Frame, b: Frame)
    requires Lags(t, u, d) && t.free != []
    ensures t.free[0] < |t.mem| && t.role[t.free[0]].Free? && t.free[0] !in d
    ensures Lags(ReadInF(t, a, []), ReadInF(u, b, []), d + {t.free[0]})
  {
    hide Inv;
    FirstFree(t);
    TakeFrame(t, a);
    TakeFrame(u, b);
  }

  lemma TakeFrame(s: Vm, a: Frame)
    requires Inv(s) && s.free != []
    ensures s.free[0] < |s.mem| && Sized(s)
    ensures ReadInF(s, a, []) == FillF(AllocF(s, false), s.free[0], a) && Inv(ReadInF(s, a, []))
  {
    hide Inv;
    SizedAll(s);
    FirstFree(s);
    ReadInTakes(s, a, []);
    assert KeepAllF(AllocF(s, false), []) == AllocF(s, false);
  }

  lemma LagsEnsure(t: Vm, u: Vm, d: set<nat>, k: Key)
    requires Lags(t, u, d) && 1 <= k.level < 4 && Parent(k) in t.ent && (k.level == 3 ==> k.p < 256)
    requires k in t.ent || t.free != []
    ensures Lags(EnsureF(t, k), EnsureF(u, k), d)
  {
    if k !in t.ent {
      AllocInv(t, true);
      assert RoleAt(t, t.free[0]);
      EntryParts(t.free[0], 7);
      assert NamedAt(t, Parent(k));
    }
  }

  lemma LagsPath(t: Vm, u: Vm, d: set<nat>, k1: Key, k2: Key, k3: Key)
    requires Lags(t, u, d) && Chain(k1, k2, k3) && Parent(k3) in t.ent
    requires (k1 in t.ent ==> k2 in t.ent) && (k2 in t.ent ==> k3 in t.ent)
    requires |t.free| >= Absent(t.ent, k1) + Absent(t.ent, k2) + Absent(t.ent, k3)
    ensures Lags(EnsurePathF(t, k1, k2, k3), EnsurePathF(u, k1, k2, k3), d)
  {
    hide Inv, DataKept, EnsureF, Lags;
    LagsParts(t, u, d);
    LagsEnsure(t, u, d, k3);
    LagsParts(EnsureF(t, k3), EnsureF(u, k3), d);
    LagsEnsure(EnsureF(t, k3), EnsureF(u, k3), d, k2);
    LagsParts(EnsureF(EnsureF(t, k3), k2), EnsureF(EnsureF(u, k3), k2), d);
    LagsEnsure(EnsureF(EnsureF(t, k3), k2), EnsureF(EnsureF(u, k3), k2), d, k1);
  }

  lemma LagsParts(t: Vm, u: Vm, d: set<nat>)
    requires Lags(t, u, d)
    ensures Inv(t) && Inv(u) && Sized(t) && Sized(u) && u.ent == t.ent && u.free == t.free && u.role == t.role
    ensures |u.mem| == |t.mem|
  {
    hide Inv;
  }

  lemma LagsLeaf(t: Vm, u: Vm, d: set<nat>, k: Key, f: nat)
    requires Lags(t, u, d) && k.level == 0 && Parent(k) in t.ent && k !in t.ent
    requires f < |t.mem| && t.role[f].Data?
    ensures Lags(LeafF(t, k, f, UWP), LeafF(u, k, f, UWP), d)
  {
    EntryParts(f, UWP);
    assert NamedAt(t, Parent(k));
  }

  /** Page v is mapped in both, with different content. */
  lemma LagsMap(t: Vm, u: Vm, d: set<nat>, r: nat, v: nat, a: Frame, b: Frame)
    requires Lags(t, u, d) && Mappable(t, r, v, 0)
    ensures Mappable(u, r, v, 0) && t.free[0] !in d
    ensures Lags(PageInF(t, r, v, a, []), PageInF(u, r, v, b, []), d + {t.free[0]})
  {
    hide Inv, EnsurePathF, LeafF, ReadInF, K0, K1, K2, K3, Missing, Lags, Grown;
    LagsParts(t, u, d);
    LagsTake(t, u, d, a, b);
    PageInReady(t, r, v, a, []);
    PageInReady(u, r, v, b, []);
    LagsParts(ReadInF(t, a, []), ReadInF(u, b, []), d + {t.free[0]});
    LagsInsert(ReadInF(t, a, []), ReadInF(u, b, []), d + {t.free[0]}, r, v, t.free[0]);
  }

  lemma LagsInsert(t: Vm, u: Vm, d: set<nat>, r: nat, v: nat, f: nat)
    requires Lags(t, u, d) && Space(t, r) && Lower(v) && |t.free| >= Missing(t.ent, r, v) && K0(r, v) !in t.ent
    requires Inv(t) && Sized(t) && f < |t.mem| && t.role[f].Data?
    ensures Inv(u) && Space(u, r) && |u.free| >= Missing(u.ent, r, v) && K0(r, v) !in u.ent && f < |u.mem|
    ensures f < |u.role| && u.role[f].Data?
    ensures Lags(InsertF(t, r, v, f, UWP), InsertF(u, r, v, f, UWP), d)
  {
    hide Inv, EnsurePathF, LeafF, Lags, Grown, DataKept, K0, K1, K2, K3;
    LagsParts(t, u, d);
    Ancestors(r, v);
    TablesAbove(t, r, v);
    LagsPath(t, u, d, K1(r, v), K2(r, v), K3(r, v));
    InsertReady(t, r, v, f, UWP);
    InsertReady(u, r, v, f, UWP);
    LagsLeaf(WalkCreateF(t, r, v), WalkCreateF(u, r, v), d, K0(r, v), f);
  }

  lemma LagsFree(t: Vm, u: Vm, d: set<nat>)
    requires Lags(t, u, d) && t.free != []
    ensures t.free[0] < |t.mem| && u.mem[t.free[0]] == t.mem[t.free[0]]
  {
    FirstFree(t);
  }

  /** One frame is filled. */
  lemma LagsFill(t: Vm, u: Vm, d: set<nat>, f: nat)
    requires Lags(t, u, d) && f < |t.mem| && t.role[f].Data?
    ensures Lags(FillF(t, f, u.mem[f]), u, d - {f})
  {
    FillInv(t, f, u.mem[f]);
    hide Inv;
  }
}
