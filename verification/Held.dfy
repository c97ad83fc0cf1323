/** What the kernel keeps for itself it keeps for good: frames reserved at boot, and those
    that a block was read into, are never handed out again and never seen by a process. */
module Held {
  import opened Words
  import opened Vm
  import opened PageTable
  import opened AddressSpace
  import opened Fork
  import opened Teardown
  import opened UserPages
  import opened System
  import opened Kept
  import opened ExecSpace
  import opened Steps
  import opened Refinement

  /** The kernel holds a reference to frame f. */
  ghost predicate HeldAt(s: Vm, f: nat) { f < |s.hold| && s.hold[f] >= 1 }

  /** It holds as many of them as before. */
  ghost predicate Stays(s: Vm, t: Vm, f: nat) { HeldAt(s, f) ==> f < |t.hold| && t.hold[f] == s.hold[f] }

  lemma HeldNotFree(s: Vm, f: nat)
    requires Inv(s) && HeldAt(s, f)
    ensures f < |s.mem| == |s.hold| == |s.role| && !s.role[f].Free? && f !in s.free
  {
    assert RoleAt(s, f) && CountAt(s, f);
  }

  lemma KeepStays(s: Vm, d: Frame, f: nat)
    requires Inv(s) && s.free != []
    ensures Stays(s, KeepF(s, d), f)
  {
    hide Inv;
    FirstFree(s);
    KeepHolds(s, d);
  }

  lemma PageInStays(s: Vm, r: nat, v: nat, d: Frame, kept: seq<Frame>, f: nat)
    requires Mappable(s, r, v, |kept|)
    ensures Stays(s, PageInF(s, r, v, d, kept), f)
  {
    hide Inv, K0, K1, K2, K3, Missing, Grown, PageInF;
    if HeldAt(s, f) {
      HeldNotFree(s, f);
      SizedAll(s);
      SizedAll(PageInF(s, r, v, d, kept));
    }
  }

  lemma {:induction false} LoadStays(s: Vm, r: nat, plan: seq<Mapping>, f: nat)
    requires Plannable(s, r, plan)
    ensures Stays(s, LoadF(s, r, plan), f)
    decreases |plan|
  {
    hide Plannable, Placed, Inv, Missing, PageInF;
    if plan != [] {
      var init, m := plan[..|plan| - 1], plan[|plan| - 1];
      PlanInit(s, r, plan);
      LoadStays(s, r, init, f);
      var u := LoadF(s, r, init);
      PlacedNext(s, u, r, plan);
      PageInStays(u, r, m.v, m.page, m.kept, f);
    }
  }

  lemma HeadStays(s: Vm, dir: Frame, header: Frame, f: nat)
    requires UserOk(s) && Openable(s)
    ensures Stays(s, HeadF(s, dir, header), f)
  {
    hide Openable, UserOk, Inv, RemoveAllF, Settled;
    HeadTakes(s, dir);
    KeepStays(s, dir, f);
    KeepStays(ClearF(KeepF(s, dir), s.cr3), header, f);
  }

  lemma AccessStays(y: Sys, op: Op, f: nat)
    requires System.Valid(y) && Enabled(y, op) && (op.Load? || op.Store?)
    ensures Stays(y.vm, Step(y, op).vm, f)
  {
    hide UserOk, Inv, SpacesOk, SlotsOk, TouchF, Affordable, SamePages, FaultMoves;
    var write := op.Store?;
    CurrentSpace(y);
    TouchReady(y, op.v, write);
    TouchOk(y.vm, op.v, write);
  }

  lemma ExecStays(y: Sys, op: Op, f: nat)
    requires System.Valid(y) && Enabled(y, op) && (op.Exec? || op.Refuse?)
    ensures Stays(y.vm, Step(y, op).vm, f)
  {
    hide UserOk, Inv, SpacesOk, SlotsOk, HeadF, LoadF, Openable, Plannable, ExecEnabled;
    match op {
      case Exec(dir, header, plan) =>
        ExecReady(y, plan);
        HeadStays(y.vm, dir, header, f);
        LoadStays(HeadF(y.vm, dir, header), y.vm.cr3, plan, f);
      case Refuse(dir, header) =>
        HeadReady(y);
        HeadStays(y.vm, dir, header, f);
    }
  }

  lemma SpawnStays(y: Sys, plan: seq<Mapping>, f: nat)
    requires System.Valid(y) && Enabled(y, Op.Spawn(plan))
    ensures Stays(y.vm, Step(y, Op.Spawn(plan)).vm, f)
  {
    hide UserOk, Inv, SpacesOk, SlotsOk, LoadF, Plannable, DataKept, EmptySpace;
    SpawnReady(y, plan);
    LoadStays(NewSpaceF(y.vm), y.vm.free[0], plan, f);
  }

  lemma ForkStays(y: Sys, f: nat)
    requires System.Valid(y) && Enabled(y, Op.Fork)
    ensures Stays(y.vm, Step(y, Op.Fork).vm, f)
  {
    hide UserOk, Inv, SpacesOk, SlotsOk, ForkStep, Forked, Regions;
    ForkReady(y);
    ForkCost(y.vm, ForkStep(y).vm, y.vm.cr3, y.vm.free[0]);
  }

  lemma ExitStays(y: Sys, f: nat)
    requires System.Valid(y) && Enabled(y, Op.Exit)
    ensures Stays(y.vm, Step(y, Op.Exit).vm, f)
  {
    hide UserOk, Inv, SpacesOk, SlotsOk, DestroyF, Destroyable;
    CurrentSpace(y);
    DestroyOk(y.vm, y.vm.cr3);
    Destroyed(y.vm, y.vm.cr3);
  }

  lemma StepStays(y: Sys, op: Op, f: nat)
    requires System.Valid(y) && Enabled(y, op)
    ensures Stays(y.vm, Step(y, op).vm, f)
  {
    hide System.Valid, Enabled, Stays, Step;
    match op
    case Load(_, _) => AccessStays(y, op, f);
    case Store(_, _, _) => AccessStays(y, op, f);
    case Fork => ForkStays(y, f);
    case Exec(_, _, _) => ExecStays(y, op, f);
    case Refuse(_, _) => ExecStays(y, op, f);
    case Spawn(plan) => SpawnStays(y, plan, f);
    case Exit => ExitStays(y, f);
    case Switch(_) => CpuStays(y, op, f);
    case Cache(_) => CpuStays(y, op, f);
    case Evict(_) => CpuStays(y, op, f);
  }

  lemma CpuStays(y: Sys, op: Op, f: nat)
    requires System.Valid(y) && Enabled(y, op) && (op.Switch? || op.Cache? || op.Evict?)
    ensures Stays(y.vm, Step(y, op).vm, f)
  {
    hide UserOk, Inv, SpacesOk, SlotsOk;
  }

  /** A frame that the kernel holds a reference to in s is free in t neither, no entry of any
      address space names it there, and the kernel holds as many references to it. */
  ghost predicate StillHeld(s: Vm, t: Vm, f: nat) {
    HeldAt(s, f) ==>
      && f < |t.hold| && t.hold[f] == s.hold[f] && f !in t.free
      && forall k :: k in t.ent ==> FrameOf(t.ent[k]) != f
  }

  ghost predicate AllHeld(s: Vm, t: Vm) {
    forall f: nat {:trigger StillHeld(s, t, f)} :: StillHeld(s, t, f)
  }

  /** Over every run the frames that the kernel holds stay out of reach. */
  lemma HeldForever(y: Sys, ops: seq<Op>)
    requires System.Valid(y) && AllEnabled(y, ops)
    ensures AllHeld(y.vm, Run(y, ops).vm)
  {
    hide System.Valid, Run, AllEnabled;
    var z := Run(y, ops).vm;
    forall f: nat ensures StillHeld(y.vm, z, f) {
      if HeldAt(y.vm, f) { HeldStays(y, ops, f); }
    }
  }

  lemma {:induction false} HeldStays(y: Sys, ops: seq<Op>, f: nat)
    requires System.Valid(y) && AllEnabled(y, ops) && HeldAt(y.vm, f)
    ensures StillHeld(y.vm, Run(y, ops).vm, f)
    decreases |ops|
  {
    hide System.Valid, Enabled, Step;
    if ops == [] {
      HeldUnnamed(y, f);
    } else {
      StepStays(y, ops[0], f);
      StepRefines(y, ops[0]);
      HeldStays(Step(y, ops[0]), ops[1..], f);
    }
  }

  lemma HeldUnnamed(y: Sys, f: nat)
    requires System.Valid(y) && HeldAt(y.vm, f)
    ensures f !in y.vm.free && forall k :: k in y.vm.ent ==> FrameOf(y.vm.ent[k]) != f
  {
    hide FreeExact, TablesStored, KernelShared, Closed, CountsExact, SpacesOk, SlotsOk;
    HeldNotFree(y.vm, f);
    assert RoleAt(y.vm, f);
    forall k | k in y.vm.ent ensures FrameOf(y.vm.ent[k]) != f {
      assert NamedAt(y.vm, k) && PageOk(y.vm, k);
    }
  }
}
