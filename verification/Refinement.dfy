/** Copy-on-write refines eager copy: whatever the processes do, they read what
    they would read if fork copied the window at once. */
module Refinement {
  import opened Limits
  import opened Words
  import opened Vm
  import opened PageTable
  import opened AddressSpace
  import opened Fork
  import opened Teardown
  import opened UserPages
  import opened System
  import opened Steps
  import opened ExecSteps

  // ------------------------------------------------- each step is simulated

  /** Entries of live address spaces only moved as a fault moves them. */
  lemma SpacesKept(y: Sys, z: Sys, v: nat)
    requires SpacesOk(y) && z.pgdir == y.pgdir && y.vm.cr3 in y.pgdir.Values
    requires FaultMoves(y.vm.ent, z.vm.ent, y.vm.cr3, v)
    ensures SpacesOk(z)
  {
    forall k | k in z.vm.ent ensures SpaceOwned(z, k) {
      if k in y.vm.ent {
        assert SpaceOwned(y, k);
      } else {
        var p :| p in y.pgdir && y.pgdir[p] == y.vm.cr3;
        assert z.pgdir[p] == k.root;
      }
    }
  }

  lemma MovesSelf(s: map<Key, nat>, r: nat, v: nat)
    ensures FaultMoves(s, s, r, v)
  {
  }

  lemma LoadRefines(y: Sys, v: nat, i: nat)
    requires Valid(y) && Enabled(y, Load(v, i))
    ensures Valid(LoadStep(y, v, i)) && EagerOf(LoadStep(y, v, i)) == EagerOf(y)
    ensures WholeWindow(PagesOf(y.vm, y.vm.cr3))
    ensures LoadObs(y, v, i) == Word(PagesOf(y.vm, y.vm.cr3)[v][i])
  {
    hide UserOk, Inv, TouchF, SpacesOk, SamePages, FaultMoves, Affordable, Lower;
    CurrentSpace(y);
    TouchReady(y, v, false);
    TouchOk(y.vm, v, false);
    var z, t := LoadStep(y, v, i), TouchF(y.vm, v, false);
    SpacesKept(y, z, v);
    EagerOfSame(y, z);
    SameAt(y.vm, t, K0(t.cr3, v));
  }

  lemma SameAt(s: Vm, t: Vm, k: Key)
    requires Inv(s) && Inv(t) && SamePages(s, t) && k.level == 0
    ensures PageAt(t, k) == PageAt(s, k)
  {
  }

  lemma CacheRefines(y: Sys, v: nat)
    requires Valid(y) && Enabled(y, Cache(v))
    ensures Valid(CacheStep(y, v)) && EagerOf(CacheStep(y, v)) == EagerOf(y)
  {
    hide UserOk, Inv, CacheF, SpacesOk, SamePages, FaultMoves, Lower;
    CurrentSpace(y);
    AccessReady(y, v);
    CacheOk(y.vm, v);
    MovesSelf(y.vm.ent, y.vm.cr3, v);
    SpacesKept(y, CacheStep(y, v), v);
    EagerOfSame(y, CacheStep(y, v));
  }

  lemma EvictRefines(y: Sys, v: nat)
    requires Valid(y)
    ensures Valid(Step(y, Evict(v))) && EagerOf(Step(y, Evict(v))) == EagerOf(y)
  {
    hide UserOk, Inv, SpacesOk, SamePages, FaultMoves;
    var z := Step(y, Evict(v));
    TlbOnly(y.vm, z.vm);
    SpacesSame(y, z);
    EagerOfSame(y, z);
  }

  lemma SpacesSame(y: Sys, z: Sys)
    requires SpacesOk(y) && z.pgdir == y.pgdir && z.vm.ent == y.vm.ent
    ensures SpacesOk(z)
  {
    forall k | k in z.vm.ent ensures SpaceOwned(z, k) { assert SpaceOwned(y, k); }
  }

  lemma SwitchRefines(y: Sys, p: nat)
    requires Valid(y) && p in y.pgdir
    ensures Valid(SwitchStep(y, p)) && EagerOf(SwitchStep(y, p)) == EagerOf(y).(current := p)
  {
    hide UserOk, Inv, SpacesOk, SamePages, FaultMoves;
    var z := SwitchStep(y, p);
    TlbOnly(y.vm, z.vm);
    SpacesSame(y, z);
    EagerOfSame(y.(current := p), z);
  }

  /** What a store makes of the page and of everything else. */
  lemma StorePages(y: Sys, v: nat, i: nat, x: nat)
    requires Valid(y) && Enabled(y, Store(v, i, x))
    ensures var z, r := StoreStep(y, v, i, x), y.vm.cr3;
      && UserOk(z.vm) && Inv(z.vm) && Inv(y.vm) && Coherent(z.vm) && z.vm.cr3 == r
      && FaultMoves(y.vm.ent, z.vm.ent, r, v)
      && PageAt(z.vm, K0(r, v)) == PageAt(y.vm, K0(r, v))[i := x]
      && forall k: Key {:trigger PageAt(y.vm, k)} ::
           k.level == 0 && k != K0(r, v) ==> PageAt(z.vm, k) == PageAt(y.vm, k)
  {
    hide UserOk, Inv, TouchF, SpacesOk, SlotsOk, SamePages, FaultMoves, Affordable, Lower, FillF, PageAt;
    CurrentSpace(y);
    TouchReady(y, v, true);
    TouchOk(y.vm, v, true);
    var t := TouchF(y.vm, v, true);
    var k := K0(t.cr3, v);
    var data: Frame := t.mem[UserFrame(t, v)][i := x];
    FillOk(t, k, data);
    FillEntries(t, UserFrame(t, v), data);
    SameAt(y.vm, t, k);
    forall q: Key | q.level == 0 && q != k ensures PageAt(FillF(t, UserFrame(t, v), data), q) == PageAt(y.vm, q) {
      SameAt(y.vm, t, q);
      assert PageAt(t, q) == PageAt(y.vm, q);
    }
  }

  lemma StoreRefines(y: Sys, v: nat, i: nat, x: nat)
    requires Valid(y) && Enabled(y, Store(v, i, x))
    ensures EagerValid(EagerOf(y)) && EagerEnabled(EagerOf(y), Store(v, i, x))
    ensures Valid(StoreStep(y, v, i, x))
    ensures EagerOf(StoreStep(y, v, i, x)) == EagerStep(EagerOf(y), Store(v, i, x))
  {
    hide UserOk, Inv, TouchF, PokeF, SpacesOk, SlotsOk, FaultMoves, Affordable, Coherent, PageAt;
    EagerOfEnabled(y, Store(v, i, x));
    CurrentSpace(y);
    StorePages(y, v, i, x);
    var z := StoreStep(y, v, i, x);
    SpacesKept(y, z, v);
    EagerOfStored(y, z, v, PageAt(y.vm, K0(y.vm.cr3, v))[i := x]);
  }

  lemma FillEntries(t: Vm, f: nat, data: Frame)
    requires f < |t.mem|
    ensures FillF(t, f, data).ent == t.ent && FillF(t, f, data).tlb == t.tlb
    ensures FillF(t, f, data).cr3 == t.cr3
  {
  }

  lemma EagerOfStored(y: Sys, z: Sys, v: nat, data: Frame)
    requires Valid(y) && y.current != -1 && Inv(y.vm) && Inv(z.vm) && InWindow(v)
    requires z.pgdir == y.pgdir && z.slots == y.slots && z.current == y.current
    requires PageAt(z.vm, K0(y.vm.cr3, v)) == data
    requires forall k: Key {:trigger PageAt(y.vm, k)} ::
      k.level == 0 && k != K0(y.vm.cr3, v) ==> PageAt(z.vm, k) == PageAt(y.vm, k)
    ensures EagerOf(z).slots == EagerOf(y).slots && EagerOf(z).current == EagerOf(y).current
    ensures var r := y.vm.cr3;
      EagerOf(z).pages == EagerOf(y).pages[y.current := PagesOf(y.vm, r)[v := data]]
  {
    hide Inv, PageAt, UserOk, PagesOf, SpacesOk, SlotsOk;
    CurrentSpace(y);
    forall p | p in y.pgdir
      ensures PagesOf(z.vm, z.pgdir[p]) ==
        if p == y.current then PagesOf(y.vm, y.vm.cr3)[v := data] else PagesOf(y.vm, y.pgdir[p])
    {
      OneSpace(y, p);
      PagesStored(y.vm, z.vm, y.vm.cr3, v, data, y.pgdir[p]);
    }
  }

  lemma OneSpace(y: Sys, p: nat)
    requires Valid(y) && y.current != -1 && p in y.pgdir
    ensures y.pgdir[p] == y.vm.cr3 <==> p == y.current
  {
  }

  lemma PagesStored(s: Vm, u: Vm, r: nat, v: nat, data: Frame, q: nat)
    requires Inv(s) && Inv(u) && InWindow(v)
    requires PageAt(u, K0(r, v)) == data
    requires forall k: Key {:trigger PageAt(s, k)} ::
      k.level == 0 && k != K0(r, v) ==> PageAt(u, k) == PageAt(s, k)
    ensures PagesOf(u, q) == if q == r then PagesOf(s, r)[v := data] else PagesOf(s, q)
  {
    hide Inv, PageAt;
    forall x | InWindow(x) && (q != r || x != v) ensures PageAt(u, K0(q, x)) == PageAt(s, K0(q, x)) { }
  }

  // --------------------------------------------------------- fork and exit

  lemma FreeForFork(y: Sys)
    requires Enabled(y, Fork)
    ensures y.vm.free != [] && y.slots != []
  {
  }

  lemma ForkReady(y: Sys)
    requires Valid(y) && Enabled(y, Fork) && y.vm.free != [] && y.slots != []
    ensures Forked(y.vm, ForkStep(y).vm, y.vm.cr3, y.vm.free[0])
    ensures y.slots[0] !in y.pgdir && ForkStep(y).pgdir == y.pgdir[y.slots[0] := y.vm.free[0]]
    ensures ForkStep(y).slots == y.slots[1..] && ForkStep(y).current == y.current
  {
    CurrentSpace(y);
  }

  lemma ForkSpaces(y: Sys, z: Sys, r: nat, c: nat)
    requires SpacesOk(y) && Forked(y.vm, z.vm, r, c) && y.slots != []
    requires y.slots[0] !in y.pgdir && y.slots[0] < MAXPROC
    requires z.pgdir == y.pgdir[y.slots[0] := c] && r in y.pgdir.Values
    ensures SpacesOk(z)
  {
    hide Forked, Inv, DataKept, Regions;
    ForkCost(y.vm, z.vm, r, c);
    forall p | p in z.pgdir
      ensures p < MAXPROC && Space(z.vm, z.pgdir[p])
      ensures p in y.pgdir ==> y.pgdir[p] != c
    {
      if p in y.pgdir {
        assert K4(y.pgdir[p]) in y.vm.ent;
        ForkOther(y.vm, z.vm, r, c, K4(y.pgdir[p]));
      }
    }
    forall k | k in z.vm.ent ensures SpaceOwned(z, k) {
      if k.root == c {
        assert z.pgdir[y.slots[0]] == k.root;
      } else {
        ForkOther(y.vm, z.vm, r, c, k);
        assert SpaceOwned(y, k);
        var p :| p in y.pgdir && y.pgdir[p] == k.root;
        assert z.pgdir[p] == k.root;
      }
    }
  }

  lemma ForkTlb(y: Sys, t: Vm, r: nat, c: nat)
    requires Inv(y.vm) && Coherent(y.vm) && Forked(y.vm, t, r, c) && y.vm.cr3 == r
    ensures t.cr3 == r && Coherent(t)
  {
    hide Forked, Inv, DataKept, Regions, Entry, FrameOf;
    ForkCost(y.vm, t, r, c);
    forall v | v in t.tlb ensures K0(r, v) in t.ent && t.tlb[v] == t.ent[K0(r, v)] {
      assert r != c by { assert K0(r, v) in y.vm.ent; }
      ForkOther(y.vm, t, r, c, K0(r, v));
    }
  }

  lemma ForkRefines(y: Sys)
    requires Valid(y) && Enabled(y, Fork)
    ensures Valid(ForkStep(y)) && EagerValid(EagerOf(y)) && EagerEnabled(EagerOf(y), Fork)
    ensures EagerOf(ForkStep(y)) == EagerStep(EagerOf(y), Fork)
  {
    hide UserOk, Inv, SpacesOk, Forked, SlotsOk, Coherent, ForkStep, PagesOf;
    EagerOfEnabled(y, Fork);
    CurrentSpace(y);
    FreeForFork(y);
    ForkReady(y);
    var z, r, c := ForkStep(y), y.vm.cr3, y.vm.free[0];
    ForkOk(y.vm, z.vm, r, c);
    FirstSlot(y);
    ForkSpaces(y, z, r, c);
    ForkTlb(y, z.vm, r, c);
    SlotTaken(y.pgdir, y.slots, c);
    ForkView(y, z, r, c);
  }

  lemma ForkView(y: Sys, z: Sys, r: nat, c: nat)
    requires Inv(y.vm) && SpacesOk(y) && Forked(y.vm, z.vm, r, c) && y.slots != []
    requires 0 <= y.current && y.current in y.pgdir && y.pgdir[y.current] == r
    requires z.pgdir == y.pgdir[y.slots[0] := c] && y.slots[0] !in y.pgdir
    ensures Inv(z.vm)
    ensures EagerOf(z).pages == EagerOf(y).pages[y.slots[0] := EagerOf(y).pages[y.current]]
  {
    hide Forked, Inv, PagesOf, DataKept, Regions, Space;
    ForkCost(y.vm, z.vm, r, c);
    forall p | p in y.pgdir ensures PagesOf(z.vm, y.pgdir[p]) == PagesOf(y.vm, y.pgdir[p]) {
      ForkViewOld(y.vm, z.vm, r, c, y.pgdir[p]);
    }
    ForkViewNew(y.vm, z.vm, r, c);
  }

  lemma ForkViewOld(s: Vm, t: Vm, r: nat, c: nat, q: nat)
    requires Inv(s) && Inv(t) && Forked(s, t, r, c) && Space(s, q)
    ensures PagesOf(t, q) == PagesOf(s, q)
  {
    hide Forked, Inv, PageAt, DataKept, Regions;
    ForkCost(s, t, r, c);
    assert K4(q) in s.ent;
    forall v | InWindow(v) ensures PageAt(t, K0(q, v)) == PageAt(s, K0(q, v)) {
      ForkKeepsPages(s, t, r, c, K0(q, v));
    }
  }

  lemma ForkViewNew(s: Vm, t: Vm, r: nat, c: nat)
    requires Inv(s) && Inv(t) && Forked(s, t, r, c)
    ensures PagesOf(t, c) == PagesOf(s, r)
  {
    hide Forked, Inv, PageAt;
    forall v | InWindow(v) ensures PageAt(t, K0(c, v)) == PageAt(s, K0(r, v)) {
      ForkCopiesPages(s, t, r, c, v);
    }
  }

  lemma ExitRefines(y: Sys)
    requires Valid(y) && Enabled(y, Exit)
    ensures Valid(ExitStep(y)) && EagerValid(EagerOf(y)) && EagerEnabled(EagerOf(y), Exit)
    ensures EagerOf(ExitStep(y)) == EagerStep(EagerOf(y), Exit)
  {
    hide UserOk, Inv, SpacesOk, SlotsOk, Coherent, Destroyable, PagesOf, DestroyF;
    EagerOfEnabled(y, Exit);
    CurrentSpace(y);
    var z, r := ExitStep(y), y.vm.cr3;
    DestroyOk(y.vm, r);
    ExitSpaces(y, z);
    LiveSlot(y);
    SlotReturned(y.pgdir, y.slots, y.current);
    forall p | p in z.pgdir ensures PagesOf(z.vm, y.pgdir[p]) == PagesOf(y.vm, y.pgdir[p]) {
      ExitPages(y, p);
    }
  }

  lemma ExitSpaces(y: Sys, z: Sys)
    requires Valid(y) && Enabled(y, Exit) && z == ExitStep(y)
    ensures SpacesOk(z) && UserOk(z.vm) && Inv(z.vm)
  {
    hide UserOk, Inv, MemKept, TlbCleared, Destroyable, DestroyF;
    CurrentSpace(y);
    DestroyOk(y.vm, y.vm.cr3);
    Destroyed(y.vm, y.vm.cr3);
    forall k | k in z.vm.ent ensures SpaceOwned(z, k) {
      assert SpaceOwned(y, k);
      var p :| p in y.pgdir && y.pgdir[p] == k.root;
      assert z.pgdir[p] == k.root;
    }
  }

  lemma ExitPages(y: Sys, p: nat)
    requires Valid(y) && Enabled(y, Exit) && p in y.pgdir && p != y.current
    ensures Inv(y.vm) && Inv(ExitStep(y).vm)
    ensures PagesOf(ExitStep(y).vm, y.pgdir[p]) == PagesOf(y.vm, y.pgdir[p])
  {
    hide UserOk, Inv, TlbCleared, Destroyable, DestroyF;
    CurrentSpace(y);
    DestroyOk(y.vm, y.vm.cr3);
    Destroyed(y.vm, y.vm.cr3);
    var t := ExitStep(y).vm;
    forall v | InWindow(v) ensures PageAt(t, K0(y.pgdir[p], v)) == PageAt(y.vm, K0(y.pgdir[p], v)) {
      if K0(y.pgdir[p], v) in y.vm.ent { LeafFrame(y.vm, K0(y.pgdir[p], v)); }
    }
  }

  lemma LeafFrame(s: Vm, k: Key)
    requires Inv(s) && k in s.ent && k.level == 0
    ensures FrameOf(s.ent[k]) < |s.mem| && s.role[FrameOf(s.ent[k])].Data?
  {
    assert NamedAt(s, k);
  }

  // ---------------------------------------------------------------- all runs

  /** One step keeps the invariant and is the eager machine's step. */
  lemma StepRefines(y: Sys, op: Op)
    requires Valid(y) && Enabled(y, op)
    ensures Valid(Step(y, op)) && EagerValid(EagerOf(y)) && EagerEnabled(EagerOf(y), op)
    ensures EagerOf(Step(y, op)) == EagerStep(EagerOf(y), op)
    ensures Observe(y, op) == EagerObs(EagerOf(y), op)
  {
    hide Valid, Enabled, EagerValid, EagerEnabled, Inv, LoadStep, StoreStep, ForkStep, ExecStep, SpawnStep, ExitStep,
          SwitchStep, CacheStep, LoadObs;
    EagerOfEnabled(y, op);
    match op
    case Load(v, i) => LoadRefines(y, v, i); LoadSeen(y, v, i);
    case Store(v, i, x) => StoreRefines(y, v, i, x);
    case Fork => ForkRefines(y);
    case Exec(dir, header, plan) => ExecRefines(y, dir, header, plan);
    case Refuse(dir, header) => RefuseRefines(y, dir, header);
    case Spawn(plan) => SpawnRefines(y, plan);
    case Exit => ExitRefines(y);
    case Switch(p) => SwitchEnabled(y, p); SwitchRefines(y, p);
    case Cache(v) => CacheRefines(y, v);
    case Evict(v) => EvictRefines(y, v);
  }

  lemma SwitchEnabled(y: Sys, p: nat)
    requires Enabled(y, Switch(p))
    ensures p in y.pgdir
  {
  }

  lemma LoadSeen(y: Sys, v: nat, i: nat)
    requires Valid(y) && Enabled(y, Load(v, i))
    ensures EagerValid(EagerOf(y)) && EagerEnabled(EagerOf(y), Load(v, i))
    ensures Inv(y.vm) && WholeWindow(PagesOf(y.vm, y.vm.cr3))
    ensures EagerObs(EagerOf(y), Load(v, i)) == Word(PagesOf(y.vm, y.vm.cr3)[v][i])
  {
    EagerOfEnabled(y, Load(v, i));
    CurrentSpace(y);
  }

  ghost predicate AllEnabled(y: Sys, ops: seq<Op>)
    requires Valid(y)
    decreases |ops|
  {
    ops == [] ||
    (Enabled(y, ops[0]) && (StepRefines(y, ops[0]); AllEnabled(Step(y, ops[0]), ops[1..])))
  }

  ghost function Run(y: Sys, ops: seq<Op>): Sys
    requires Valid(y) && AllEnabled(y, ops)
    decreases |ops|
  {
    if ops == [] then y else StepRefines(y, ops[0]); Run(Step(y, ops[0]), ops[1..])
  }

  ghost function Trace(y: Sys, ops: seq<Op>): seq<Obs>
    requires Valid(y) && AllEnabled(y, ops)
    decreases |ops|
  {
    if ops == [] then [] else
      StepRefines(y, ops[0]);
      [Observe(y, ops[0])] + Trace(Step(y, ops[0]), ops[1..])
  }

  ghost predicate StepsTo(y: Sys, op: Op, z: Sys) {
    Valid(y) && Enabled(y, op) && z == Step(y, op)
  }

  ghost predicate RunsTo(y: Sys, ops: seq<Op>, z: Sys) {
    Valid(y) && AllEnabled(y, ops) && z == Run(y, ops)
  }

  ghost predicate EagerRuns(e: Eager, ops: seq<Op>, f: Eager, trace: seq<Obs>)
    decreases |ops|
  {
    && EagerValid(e)
    && if ops == [] then f == e && trace == []
       else
         && EagerEnabled(e, ops[0]) && trace != [] && trace[0] == EagerObs(e, ops[0])
         && EagerRuns(EagerStep(e, ops[0]), ops[1..], f, trace[1..])
  }

  /** Over every run of loads, stores, forks, execs, exits and switches, whatever the
      TLB caches or evicts, the copy-on-write system observes exactly what the
      eager-copy machine observes, and its invariant holds throughout. */
  lemma {:induction false} CopyOnWriteRefinesEagerCopy(y: Sys, ops: seq<Op>)
    requires Valid(y) && AllEnabled(y, ops)
    ensures Valid(Run(y, ops))
    ensures EagerRuns(EagerOf(y), ops, EagerOf(Run(y, ops)), Trace(y, ops))
    decreases |ops|
  {
    hide Valid, Enabled, Inv, EagerOf, Step, Observe, EagerStep, EagerObs;
    if ops == [] {
      EagerOfValid(y);
    } else {
      StepRefines(y, ops[0]);
      CopyOnWriteRefinesEagerCopy(Step(y, ops[0]), ops[1..]);
      assert Trace(y, ops)[1..] == Trace(Step(y, ops[0]), ops[1..]);
    }
  }

  lemma EagerOfValid(y: Sys)
    requires Valid(y)
    ensures Inv(y.vm) && EagerValid(EagerOf(y))
  {
  }
}
