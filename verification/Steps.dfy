/** The steps of the running system, and the eager-copy machine that the processes
    believe they run on. */
module Steps {
  import opened Words
  import opened Vm
  import opened PageTable
  import opened AddressSpace
  import opened Fork
  import opened Teardown
  import opened UserPages
  import opened System
  import opened ExecSpace

  /** What a process or the hardware does.  exec and the creation of a process come with
      the pages that they map, in order, each with its content; exec, and the exec that
      refuses its file, with the directory block and the first block of the file too. */
  datatype Op =
    | Load(v: nat, i: nat)
    | Store(v: nat, i: nat, x: nat)
    | Fork
    | Exec(dir: Frame, header: Frame, plan: seq<Mapping>)
    | Refuse(dir: Frame, header: Frame)
    | Spawn(plan: seq<Mapping>)
    | Exit
    | Switch(p: nat)
    | Cache(v: nat)
    | Evict(v: nat)

  ghost predicate ExecEnabled(y: Sys, plan: seq<Mapping>) {
    && Fits(plan) && Clearable(y.vm, y.vm.cr3) && y.vm.free != []
    && |ClearF(y.vm, y.vm.cr3).free| >= 2 + PlanCost(y.vm.ent, y.vm.cr3, plan)
  }

  ghost predicate SpawnEnabled(y: Sys, plan: seq<Mapping>) {
    && Fits(plan) && y.slots != [] && y.vm.free != []
    && |y.vm.free| >= 1 + PlanCost(y.vm.ent, y.vm.free[0], plan)
  }

  /** The steps that the kernel serves: accesses stay in the window, memory and
      process slots suffice, fork has a stack to copy, and only a live process is
      switched to. */
  ghost predicate Enabled(y: Sys, op: Op) {
    match op
    case Load(v, i) => y.current != -1 && InWindow(v) && i < 512 && Affordable(y.vm, v, false)
    case Store(v, i, x) => y.current != -1 && InWindow(v) && i < 512 && Affordable(y.vm, v, true)
    case Fork =>
      && y.current != -1 && y.slots != [] && K0(y.vm.cr3, STACK) in y.vm.ent
      && |y.vm.free| >= 4 + |Regions(y.vm.ent, y.vm.cr3)|
    case Exec(dir, header, plan) => y.current != -1 && ExecEnabled(y, plan)
    case Refuse(dir, header) => y.current != -1 && ExecEnabled(y, [])
    case Spawn(plan) => SpawnEnabled(y, plan)
    case Exit => y.current != -1
    case Switch(p) => p in y.pgdir
    case Cache(v) => y.current != -1 && InWindow(v)
    case Evict(v) => true
  }

  /** What the process sees: a word that it loads, the number of a new process, or that
      exec refuses its file. */
  datatype Obs = Nothing | Word(x: nat) | Child(pid: nat) | Refused

  // ------------------------------------------------- the eager-copy machine

  /** Every live process has its own copy of every window page. */
  datatype Eager = Eager(pages: map<nat, map<nat, Frame>>, slots: seq<nat>, current: int)

  ghost predicate WholeWindow(m: map<nat, Frame>) {
    forall v :: v in m <==> InWindow(v)
  }

  /** The pages as a process sees them: what is not mapped reads as zero. */
  ghost function Whole(pages: map<nat, Frame>): map<nat, Frame> {
    map v | TEXT <= v < TOP :: if v in pages then pages[v] else ZeroFrame()
  }

  ghost predicate EagerValid(e: Eager) {
    && (forall p :: p in e.pages ==> WholeWindow(e.pages[p]))
    && (e.current == -1 || (0 <= e.current && e.current in e.pages))
  }

  ghost predicate EagerEnabled(e: Eager, op: Op) {
    match op
    case Load(v, i) => e.current != -1 && InWindow(v) && i < 512
    case Store(v, i, x) => e.current != -1 && InWindow(v) && i < 512
    case Fork => e.current != -1 && e.slots != []
    case Exec(dir, header, plan) => e.current != -1
    case Refuse(dir, header) => e.current != -1
    case Spawn(plan) => e.slots != []
    case Exit => e.current != -1
    case Switch(p) => p in e.pages
    case Cache(v) => true
    case Evict(v) => true
  }

  ghost function EagerStep(e: Eager, op: Op): Eager
    requires EagerValid(e) && EagerEnabled(e, op)
  {
    match op
    case Load(v, i) => e
    case Store(v, i, x) =>
      assert WholeWindow(e.pages[e.current]);
      var mine: map<nat, Frame> := e.pages[e.current];
      var page: Frame := mine[v][i := x];
      Eager(e.pages[e.current := mine[v := page]], e.slots, e.current)
    case Fork => Eager(e.pages[e.slots[0] := e.pages[e.current]], e.slots[1..], e.current)
    case Exec(dir, header, plan) => e.(pages := e.pages[e.current := Whole(PagesIn(plan))])
    case Refuse(dir, header) => e.(pages := e.pages[e.current := Whole(map[])])
    case Spawn(plan) => Eager(e.pages[e.slots[0] := Whole(PagesIn(plan))], e.slots[1..], e.slots[0])
    case Exit => Eager(e.pages - {e.current}, [e.current] + e.slots, -1)
    case Switch(p) => e.(current := p)
    case Cache(v) => e
    case Evict(v) => e
  }

  ghost function EagerObs(e: Eager, op: Op): Obs
    requires EagerValid(e) && EagerEnabled(e, op)
  {
    match op
    case Load(v, i) =>
      assert WholeWindow(e.pages[e.current]);
      Word(e.pages[e.current][v][i])
    case Fork => Child(e.slots[0])
    case Spawn(plan) => Child(e.slots[0])
    case Refuse(dir, header) => Refused
    case _ => Nothing
  }

  // ------------------------------------------------------ the real machine

  ghost function UserFrame(s: Vm, v: nat): nat
    requires v in s.tlb
  {
    FrameOf(s.tlb[v])
  }

  /** The word store of the CPU, through the translation cached for page v. */
  ghost function PokeF(s: Vm, v: nat, i: nat, x: nat): Vm
    requires v in s.tlb && UserFrame(s, v) < |s.mem| && i < 512
  {
    FillF(s, UserFrame(s, v), s.mem[UserFrame(s, v)][i := x])
  }

  /** lcr3: load the PML4 and flush the TLB. */
  ghost function LoadCr3F(s: Vm, r: nat): Vm { s.(tlb := map[], cr3 := r) }

  lemma TouchReady(y: Sys, v: nat, write: bool)
    requires Valid(y) && y.current != -1 && InWindow(v) && Affordable(y.vm, v, write)
    ensures Inv(y.vm) && Space(y.vm, y.vm.cr3) && Lower(v) && y.vm.cr3 < |y.vm.mem|
    ensures Lookup(y.vm, v) == Get(y.vm.ent, K0(y.vm.cr3, v)) && Settled(y.vm)
    ensures var t := TouchF(y.vm, v, write);
      && UserOk(t) && v in t.tlb && t.cr3 == y.vm.cr3 && K0(t.cr3, v) in t.ent
      && t.tlb[v] == t.ent[K0(t.cr3, v)] && UserFrame(t, v) < |t.mem|
      && t.mem[UserFrame(t, v)] == PageAt(t, K0(t.cr3, v))
  {
    AccessReady(y, v);
    TouchOk(y.vm, v, write);
    var t := TouchF(y.vm, v, write);
    assert NamedAt(t, K0(t.cr3, v));
  }

  ghost function LoadStep(y: Sys, v: nat, i: nat): Sys
    requires Valid(y) && Enabled(y, Load(v, i))
  {
    AccessReady(y, v);
    y.(vm := TouchF(y.vm, v, false))
  }

  ghost function StoreStep(y: Sys, v: nat, i: nat, x: nat): Sys
    requires Valid(y) && Enabled(y, Store(v, i, x))
  {
    TouchReady(y, v, true);
    y.(vm := PokeF(TouchF(y.vm, v, true), v, i, x))
  }

  ghost function ForkStep(y: Sys): Sys
    requires Valid(y) && Enabled(y, Fork)
  {
    Sys(ForkF(y.vm, y.vm.cr3), y.pgdir[y.slots[0] := y.vm.free[0]], y.slots[1..], y.current)
  }

  lemma ExitCurrent(y: Sys)
    requires Valid(y) && Enabled(y, Exit)
    ensures 0 <= y.current
  {
  }

  ghost function ExitStep(y: Sys): Sys
    requires Valid(y) && Enabled(y, Exit)
  {
    hide Valid, Enabled, UserOk, Inv, Destroyable, DestroyF;
    ExitCurrent(y);
    CurrentSpace(y);
    DestroyOk(y.vm, y.vm.cr3);
    Sys(DestroyF(y.vm, y.vm.cr3), y.pgdir - {y.current}, [y.current] + y.slots, -1)
  }

  lemma HeadReady(y: Sys)
    requires Valid(y) && y.current != -1 && ExecEnabled(y, [])
    ensures Openable(y.vm) && UserOk(y.vm)
  {
    hide UserOk, Inv, RemoveAllF;
    CurrentSpace(y);
  }

  lemma ExecReady(y: Sys, plan: seq<Mapping>)
    requires Valid(y) && y.current != -1 && ExecEnabled(y, plan)
    ensures Openable(y.vm) && UserOk(y.vm)
    ensures forall dir, header {:trigger HeadF(y.vm, dir, header)} ::
      Plannable(HeadF(y.vm, dir, header), y.vm.cr3, plan)
  {
    hide UserOk, Inv, Mapped, ClearF, HeadF, Clearable, Space;
    CurrentSpace(y);
    forall dir, header {:trigger HeadF(y.vm, dir, header)}
      ensures Plannable(HeadF(y.vm, dir, header), y.vm.cr3, plan)
    {
      HeadWindow(y.vm, dir, header);
      NeedSame(y.vm.ent, HeadF(y.vm, dir, header).ent, y.vm.cr3, PagesIn(plan).Keys);
    }
  }

  /** run_proc of the caller, once its window is filled, reloads cr3. */
  ghost function WithWindow(y: Sys, t: Vm): Sys { y.(vm := t.(tlb := map[])) }

  /** sys_execve: the window is cleared and filled anew. */
  ghost function ExecStep(y: Sys, dir: Frame, header: Frame, plan: seq<Mapping>): Sys
    requires Valid(y) && y.current != -1 && ExecEnabled(y, plan)
  {
    hide ExecEnabled, Valid;
    ExecReady(y, plan);
    WithWindow(y, LoadF(HeadF(y.vm, dir, header), y.vm.cr3, plan))
  }

  /** sys_execve of a file without the ELF magic: the window is cleared, and the call
      returns. */
  ghost function RefuseStep(y: Sys, dir: Frame, header: Frame): Sys
    requires Valid(y) && y.current != -1 && ExecEnabled(y, [])
  {
    hide ExecEnabled, Valid;
    HeadReady(y);
    y.(vm := HeadF(y.vm, dir, header))
  }

  lemma SpawnReady(y: Sys, plan: seq<Mapping>)
    requires Valid(y) && Enabled(y, Spawn(plan))
    ensures Inv(y.vm) && Plannable(NewSpaceF(y.vm), y.vm.free[0], plan)
  {
    MappedFresh(y.vm);
    var a, c := NewSpaceF(y.vm), y.vm.free[0];
    assert TableKeys(a.ent, c) == TableKeys(y.vm.ent, c);
  }

  /** The process in the first free slot runs, once its address space is filled: run_proc
      loads cr3 again. */
  ghost function WithProcess(y: Sys, t: Vm): Sys
    requires y.slots != [] && y.vm.free != []
  {
    var c := y.vm.free[0];
    Sys(t.(tlb := map[], cr3 := c), y.pgdir[y.slots[0] := c], y.slots[1..], y.slots[0])
  }

  /** create_proc: slot, PML4, pages, status. */
  ghost function SpawnStep(y: Sys, plan: seq<Mapping>): Sys
    requires Valid(y) && Enabled(y, Spawn(plan))
  {
    SpawnReady(y, plan);
    WithProcess(y, LoadF(NewSpaceF(y.vm), y.vm.free[0], plan))
  }

  ghost function SwitchStep(y: Sys, p: nat): Sys
    requires p in y.pgdir
  {
    y.(vm := LoadCr3F(y.vm, y.pgdir[p]), current := p)
  }

  ghost function CacheStep(y: Sys, v: nat): Sys
    requires Valid(y) && Enabled(y, Cache(v))
  {
    AccessReady(y, v);
    y.(vm := CacheF(y.vm, v))
  }

  ghost function Step(y: Sys, op: Op): Sys
    requires Valid(y) && Enabled(y, op)
  {
    match op
    case Load(v, i) => LoadStep(y, v, i)
    case Store(v, i, x) => StoreStep(y, v, i, x)
    case Fork => ForkStep(y)
    case Exec(dir, header, plan) => ExecStep(y, dir, header, plan)
    case Refuse(dir, header) => RefuseStep(y, dir, header)
    case Spawn(plan) => SpawnStep(y, plan)
    case Exit => ExitStep(y)
    case Switch(p) => SwitchStep(y, p)
    case Cache(v) => CacheStep(y, v)
    case Evict(v) => y.(vm := DropTlb(y.vm, v))
  }

  ghost function LoadObs(y: Sys, v: nat, i: nat): Obs
    requires Valid(y) && Enabled(y, Load(v, i))
  {
    TouchReady(y, v, false);
    var t := TouchF(y.vm, v, false);
    Word(t.mem[UserFrame(t, v)][i])
  }

  ghost function Observe(y: Sys, op: Op): Obs
    requires Valid(y) && Enabled(y, op)
  {
    match op
    case Load(v, i) => LoadObs(y, v, i)
    case Fork => Child(y.slots[0])
    case Spawn(plan) => Child(y.slots[0])
    case Refuse(dir, header) => Refused
    case _ => Nothing
  }

  // ------------------------------------------------------------ abstraction

  ghost function PagesOf(s: Vm, r: nat): map<nat, Frame>
    requires Inv(s)
  {
    map v | TEXT <= v < TOP :: PageAt(s, K0(r, v))
  }

  /** The eager machine that y stands for. */
  ghost function EagerOf(y: Sys): Eager
    requires Inv(y.vm)
  {
    Eager(map p | p in y.pgdir :: PagesOf(y.vm, y.pgdir[p]), y.slots, y.current)
  }

  lemma EagerOfParts(y: Sys)
    requires Valid(y)
    ensures Inv(y.vm) && EagerOf(y).slots == y.slots && EagerOf(y).current == y.current
  {
  }

  lemma EagerOfSame(y: Sys, z: Sys)
    requires Inv(y.vm) && Inv(z.vm) && SamePages(y.vm, z.vm)
    requires z.pgdir == y.pgdir && z.slots == y.slots && z.current == y.current
    ensures EagerOf(z) == EagerOf(y)
  {
    forall p | p in y.pgdir ensures PagesOf(z.vm, z.pgdir[p]) == PagesOf(y.vm, y.pgdir[p]) {
    }
  }

  lemma EagerOfEnabled(y: Sys, op: Op)
    requires Valid(y) && Enabled(y, op)
    ensures EagerValid(EagerOf(y)) && EagerEnabled(EagerOf(y), op)
  {
  }

  lemma CurrentSpace(y: Sys)
    requires Valid(y) && y.current != -1
    ensures y.current in y.pgdir && y.vm.cr3 == y.pgdir[y.current] && y.vm.cr3 in y.pgdir.Values
    ensures Space(y.vm, y.vm.cr3) && Coherent(y.vm) && UserOk(y.vm) && Inv(y.vm)
  {
  }
}
