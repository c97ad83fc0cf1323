/** fork, any window accesses by the child alone, and the child's exit give back
    everything: every count, the set of free frames, the process free list and
    every entry; only the parent's window pages stay downgraded to shared. */
module Conservation {
  import opened Words
  import opened Vm
  import opened PageTable
  import opened AddressSpace
  import opened Fork
  import opened Teardown
  import opened UserPages
  import opened System
  import opened Steps
  import opened Refinement

  /** The same nodes naming the same frames, whatever the flags. */
  ghost predicate SameFrames(s: map<Key, nat>, t: map<Key, nat>) {
    && (forall k :: k in s <==> k in t)
    && (forall k :: k in s ==> FrameOf(t[k]) == FrameOf(s[k]))
  }

  /** Counts and the free set are a function of the entries and the holds. */
  lemma CountsDetermined(s: Vm, t: Vm)
    requires Inv(s) && Inv(t) && |s.mem| == |t.mem| && s.hold == t.hold
    requires SameFrames(s.ent, t.ent)
    ensures t.count == s.count && (set f | f in t.free) == (set f | f in s.free)
  {
    forall f | 0 <= f < |s.mem| ensures t.count[f] == s.count[f] {
      assert CountAt(s, f) && CountAt(t, f);
      assert Refs(t.ent, f) == Refs(s.ent, f);
    }
    assert t.count == s.count;
    SameFree(s, t);
  }

  lemma SameFree(s: Vm, t: Vm)
    requires Inv(s) && Inv(t) && t.count == s.count
    ensures (set f | f in t.free) == (set f | f in s.free)
  {
    hide RolesOk, CountsExact, Named, Closed, TablesStored, KernelShared;
    forall f | f in s.free ensures f in t.free {
      var i :| 0 <= i < |s.free| && s.free[i] == f;
    }
    forall f | f in t.free ensures f in s.free {
      var i :| 0 <= i < |t.free| && t.free[i] == f;
    }
  }

  /** The entries after address space r has shared its window: those of its pages
      below the stack are read-only and marked as shared, no other differs. */
  ghost function SharedBy(ent: map<Key, nat>, r: nat): map<Key, nat> {
    map k | k in ent :: ShareWord(ent, r, TEXT, STACK, k)
  }

  /** What sharing changes: flags, of window pages of r alone. */
  lemma SharedByIs(ent: map<Key, nat>, r: nat)
    ensures SameFrames(ent, SharedBy(ent, r))
    ensures forall k :: k in ent && k.root != r ==> SharedBy(ent, r)[k] == ent[k]
    ensures forall k :: k in ent && SharedBy(ent, r)[k] != ent[k] ==>
      k.root == r && k.level == 0 && TEXT <= k.p < STACK
      && SharedBy(ent, r)[k] == Entry(FrameOf(ent[k]), UPC)
  {
    forall k | k in ent ensures FrameOf(SharedBy(ent, r)[k]) == FrameOf(ent[k]) {
      EntryParts(FrameOf(ent[k]), UPC);
    }
  }

  /** z is y after fork and some accesses by the child pid with PML4 c. */
  ghost predicate ChildOnly(y: Sys, z: Sys, pid: nat, c: nat) {
    && z.pgdir == y.pgdir[pid := c] && y.slots != [] && pid == y.slots[0]
    && z.slots == y.slots[1..] && z.current == pid
    && |z.vm.mem| == |y.vm.mem| && z.vm.hold == y.vm.hold
    && (forall k :: k in y.vm.ent ==> k.root != c)
    && Others(z.vm.ent, c) == SharedBy(y.vm.ent, y.vm.cr3)
  }

  predicate Access(op: Op) { op.Load? || op.Store? || op.Cache? || op.Evict? }

  ghost predicate Forks(y: Sys, z: Sys, pid: nat, c: nat) {
    StepsTo(y, Fork, z) && pid == y.slots[0] && c == y.vm.free[0]
  }

  lemma ForkThenRun(y: Sys, z: Sys, pid: nat, c: nat)
    requires Forks(y, z, pid, c)
    ensures Valid(z) && pid in z.pgdir && ChildOnly(y, SwitchStep(z, pid), pid, c)
  {
    hide Forked, Inv, DataKept, Regions, UserOk, SpacesOk, SlotsOk, Coherent, ForkStep;
    FreeForFork(y);
    ForkRefines(y);
    ForkReady(y);
    CurrentSpace(y);
    var r := y.vm.cr3;
    ForkCost(y.vm, z.vm, r, c);
    ForkMemory(y.vm, z.vm, r, c);
    ForkShares(y.vm, z.vm, r, c);
  }

  lemma ForkShares(s: Vm, t: Vm, r: nat, c: nat)
    requires Forked(s, t, r, c)
    ensures Others(t.ent, c) == SharedBy(s.ent, r)
  {
    hide Forked, Inv, DataKept, Regions, ShareWord;
    ForkCost(s, t, r, c);
    forall k: Key | k.root != c
      ensures k in t.ent <==> k in s.ent
      ensures k in s.ent ==> t.ent[k] == ShareWord(s.ent, r, TEXT, STACK, k)
    {
      ForkOther(s, t, r, c, k);
    }
  }

  lemma ForkMemory(s: Vm, t: Vm, r: nat, c: nat)
    requires Forked(s, t, r, c)
    ensures |t.mem| == |s.mem|
  {
    hide ForkF, Forkable;
    ForkCost(s, t, r, c);
  }

  /** What an access by the running process leaves alone. */
  ghost predicate AccessKeeps(s: Vm, t: Vm) {
    && |t.mem| == |s.mem| && t.hold == s.hold
    && Others(t.ent, s.cr3) == Others(s.ent, s.cr3)
  }

  lemma AccessKept(y: Sys, op: Op)
    requires Valid(y) && Enabled(y, op) && Access(op)
    ensures var z := Step(y, op);
      AccessKeeps(y.vm, z.vm) && z.pgdir == y.pgdir && z.slots == y.slots && z.current == y.current
  {
    hide Inv, UserOk, SpacesOk, SlotsOk, TouchF, CacheF, Affordable, Coherent, AccessKeeps, Valid;
    match op
    case Load(v, i) => TouchKept(y, v, false);
    case Store(v, i, x) => TouchKept(y, v, true); StoreKept(y, v, i, x);
    case Cache(v) => CacheKept(y, v);
    case Evict(v) => KeptBut(y.vm, Step(y, op).vm);
  }

  lemma KeptBut(s: Vm, t: Vm)
    requires t == s.(tlb := t.tlb)
    ensures AccessKeeps(s, t)
  {
  }

  lemma TouchKept(y: Sys, v: nat, write: bool)
    requires Valid(y) && y.current != -1 && InWindow(v) && Affordable(y.vm, v, write)
    ensures Inv(y.vm) && Space(y.vm, y.vm.cr3) && Lower(v) && y.vm.cr3 < |y.vm.mem|
    ensures Lookup(y.vm, v) == Get(y.vm.ent, K0(y.vm.cr3, v)) && Settled(y.vm)
    ensures AccessKeeps(y.vm, TouchF(y.vm, v, write))
  {
    hide Inv, UserOk, SpacesOk, SlotsOk, TouchF, SamePages, Affordable, Coherent, Space, Lookup;
    CurrentSpace(y);
    TouchReady(y, v, write);
    TouchOk(y.vm, v, write);
    TouchKeeps(y.vm, v, write);
  }

  lemma StoreKept(y: Sys, v: nat, i: nat, x: nat)
    requires Valid(y) && Enabled(y, Store(v, i, x)) && Inv(y.vm) && Space(y.vm, y.vm.cr3) && Lower(v)
    requires y.vm.cr3 < |y.vm.mem| && Lookup(y.vm, v) == Get(y.vm.ent, K0(y.vm.cr3, v)) && Settled(y.vm)
    requires AccessKeeps(y.vm, TouchF(y.vm, v, true))
    ensures AccessKeeps(y.vm, StoreStep(y, v, i, x).vm)
  {
    hide Inv, Valid, TouchF, Lookup, Settled, Space;
    TouchReady(y, v, true);
  }

  lemma CacheKept(y: Sys, v: nat)
    requires Valid(y) && Enabled(y, Cache(v))
    ensures AccessKeeps(y.vm, CacheStep(y, v).vm)
  {
    hide Inv, UserOk, SpacesOk, SlotsOk, CacheF, SamePages, Coherent;
    AccessReady(y, v);
    CurrentSpace(y);
    CacheOk(y.vm, v);
  }

  lemma TouchKeeps(s: Vm, v: nat, write: bool)
    requires UserOk(s) && Space(s, s.cr3) && Coherent(s) && InWindow(v) && Lower(v)
    requires s.cr3 < |s.mem| && Lookup(s, v) == Get(s.ent, K0(s.cr3, v))
    requires Affordable(s, v, write)
    ensures |TouchF(s, v, write).mem| == |s.mem|
  {
    hide K1, K2, K3, Missing;
    FaultOk(s, v, write);
    var t := FaultF(s, v, write);
    assert |t.hold| == |t.mem| && |s.hold| == |s.mem|;
  }

  ghost predicate AllAccesses(ops: seq<Op>) {
    forall i :: 0 <= i < |ops| ==> Access(ops[i])
  }

  lemma {:induction false} AccessesKept(y: Sys, z: Sys, pid: nat, c: nat, ops: seq<Op>)
    requires Valid(z) && AllEnabled(z, ops) && AllAccesses(ops) && ChildOnly(y, z, pid, c)
    ensures Valid(Run(z, ops)) && ChildOnly(y, Run(z, ops), pid, c)
    decreases |ops|
  {
    hide Enabled, Step, Inv, UserOk, SpacesOk, SlotsOk;
    if ops != [] {
      StepRefines(z, ops[0]);
      AccessKept(z, ops[0]);
      assert z.vm.cr3 == c;
      AccessesKept(y, Step(z, ops[0]), pid, c, ops[1..]);
    }
  }

  /** The child's exit after z: what is left is what y had, shared. */
  lemma ExitGivesBack(y: Sys, z: Sys, pid: nat, c: nat)
    requires Valid(y) && Valid(z) && ChildOnly(y, z, pid, c) && pid !in y.pgdir
    ensures Enabled(z, Exit)
    ensures var e := ExitStep(z);
      && Valid(e) && e.pgdir == y.pgdir && e.slots == y.slots
      && e.vm.ent == SharedBy(y.vm.ent, y.vm.cr3) && e.vm.hold == y.vm.hold && |e.vm.mem| == |y.vm.mem|
  {
    hide Inv, UserOk, SpacesOk, SlotsOk, Coherent, Destroyable, DestroyF, TlbCleared;
    CurrentSpace(z);
    ExitRefines(z);
    DestroyOk(z.vm, c);
    Destroyed(z.vm, c);
    ExitMemory(z.vm, c);
    assert y.pgdir[pid := c] - {pid} == y.pgdir;
    assert [pid] + y.slots[1..] == y.slots;
  }

  lemma ExitMemory(s: Vm, r: nat)
    requires Destroyable(s, r)
    ensures Inv(DestroyF(s, r)) && |DestroyF(s, r).mem| == |s.mem|
  {
    hide DestroyF, Confined;
    Destroyed(s, r);
  }

  /** Fork/exit conservation: after the child's fork, any run of accesses by it
      alone and its exit, every count, the free set and the process slots are as
      before the fork, and so is every entry of every address space but for the
      flags of the parent's window pages, which stay shared. */
  lemma ForkExitConserves(y: Sys, forked: Sys, child: Sys, last: Sys, e: Sys, pid: nat, ops: seq<Op>)
    requires StepsTo(y, Fork, forked) && y.slots != [] && pid == y.slots[0]
    requires StepsTo(forked, Switch(pid), child)
    requires AllAccesses(ops) && RunsTo(child, ops, last)
    requires StepsTo(last, Exit, e)
    ensures e.vm.count == y.vm.count
    ensures (set f | f in e.vm.free) == (set f | f in y.vm.free)
    ensures e.slots == y.slots && e.pgdir == y.pgdir
    ensures e.vm.ent == SharedBy(y.vm.ent, y.vm.cr3) && SameFrames(y.vm.ent, e.vm.ent)
    ensures forall k :: k in y.vm.ent && k.root != y.vm.cr3 ==> e.vm.ent[k] == y.vm.ent[k]
    ensures forall k :: k in y.vm.ent && e.vm.ent[k] != y.vm.ent[k] ==>
      k.root == y.vm.cr3 && k.level == 0 && TEXT <= k.p < STACK
  {
    hide Inv, UserOk, SpacesOk, SlotsOk, Coherent, ForkStep, ExitStep, Run, AllEnabled, Valid, SwitchStep;
    hide AllAccesses, ChildOnly, SameFrames, SharedBy;
    FreeForFork(y);
    var c := y.vm.free[0];
    ForkThenRun(y, forked, pid, c);
    AccessesKept(y, child, pid, c, ops);
    FirstSlot(y);
    ExitGivesBack(y, last, pid, c);
    EagerOfValid(y);
    EagerOfValid(e);
    SharedByIs(y.vm.ent, y.vm.cr3);
    CountsDetermined(y.vm, e.vm);
  }

  // ------------------------------------------------ what the others read

  /** An access by the running process changes what no other process reads. */
  lemma AccessKeepsPages(y: Sys, op: Op, p: nat)
    requires Valid(y) && Enabled(y, op) && Access(op) && p in y.pgdir && p != y.current
    ensures Valid(Step(y, op)) && Inv(y.vm) && Inv(Step(y, op).vm)
    ensures p in EagerOf(y).pages && p in EagerOf(Step(y, op)).pages
    ensures EagerOf(Step(y, op)).pages[p] == EagerOf(y).pages[p]
  {
    hide Inv, UserOk, SpacesOk, SlotsOk, Coherent, Enabled, Step, PagesOf;
    StepRefines(y, op);
    EagerOfValid(y);
    EagerOfValid(Step(y, op));
  }

  lemma AccessStays(y: Sys, op: Op)
    requires Valid(y) && Enabled(y, op) && Access(op)
    ensures Valid(Step(y, op)) && Step(y, op).pgdir == y.pgdir && Step(y, op).current == y.current
  {
    hide Inv, UserOk, SpacesOk, SlotsOk, Coherent, Enabled, Step;
    StepRefines(y, op);
    AccessKept(y, op);
  }

  lemma {:induction false} AccessesKeepPages(z: Sys, ops: seq<Op>, p: nat)
    requires Valid(z) && AllEnabled(z, ops) && AllAccesses(ops) && p in z.pgdir && p != z.current
    ensures Valid(Run(z, ops)) && Inv(z.vm) && Inv(Run(z, ops).vm) && p in EagerOf(Run(z, ops)).pages
    ensures EagerOf(Run(z, ops)).pages[p] == EagerOf(z).pages[p] && Run(z, ops).current == z.current
    decreases |ops|
  {
    hide Inv, UserOk, SpacesOk, SlotsOk, Coherent, Enabled, Step, PagesOf, Valid;
    EagerOfValid(z);
    if ops != [] {
      StepRefines(z, ops[0]);
      AccessStays(z, ops[0]);
      AccessKeepsPages(z, ops[0], p);
      AccessesKeepPages(Step(z, ops[0]), ops[1..], p);
    }
  }

  /** From the fork to the child's exit every other process, the parent included,
      reads what it read before. */
  lemma ForkExitKeepsPages(y: Sys, forked: Sys, child: Sys, last: Sys, e: Sys, pid: nat, ops: seq<Op>, p: nat)
    requires StepsTo(y, Fork, forked) && y.slots != [] && pid == y.slots[0]
    requires StepsTo(forked, Switch(pid), child)
    requires AllAccesses(ops) && RunsTo(child, ops, last)
    requires StepsTo(last, Exit, e) && p in y.pgdir
    ensures Inv(y.vm) && Inv(e.vm) && p in EagerOf(y).pages && p in EagerOf(e).pages
    ensures EagerOf(e).pages[p] == EagerOf(y).pages[p]
  {
    hide Inv, UserOk, SpacesOk, SlotsOk, Coherent, Enabled, Step, PagesOf, Run, AllEnabled, AllAccesses, Valid;
    StepRefines(y, Fork);
    EagerOfValid(y);
    FirstSlot(y);
    StepRefines(forked, Switch(pid));
    EagerOfValid(forked);
    EagerOfValid(child);
    assert p in EagerOf(y).pages && p in EagerOf(forked).pages && p in EagerOf(child).pages;
    AccessesKeepPages(child, ops, p);
    StepRefines(last, Exit);
    EagerOfValid(last);
    EagerOfValid(e);
  }
}
