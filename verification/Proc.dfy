/** Traps, system calls and context switches of kernel/proc.c and
    kernel/amd64/trap.c, in place.  A process pointer is its slot number. */
module Proc {
  import opened Limits
  import opened Vm
  import opened PageTable
  import opened AddressSpace
  import opened Fork
  import opened Teardown
  import opened UserPages
  import opened System
  import opened Steps
  import opened Refinement
  import opened Mm
  import opened ProcVm
  import opened Trap
  import Scheduler

  /** The PML4s of the runnable slots; exactly these processes exist. */
  ghost function LiveOf(status: seq<Scheduler.Status>, pgdir: seq<nat>): map<nat, nat> {
    map p | 0 <= p < |status| && p < |pgdir| && status[p] == Scheduler.Runnable :: pgdir[p]
  }

  /** Slot p has a new status and every other slot the one that it had. */
  ghost predicate Turns(status: seq<Scheduler.Status>, p: int, to: Scheduler.Status, status': seq<Scheduler.Status>) {
    && 0 <= p < |status| == |status'| && status'[p] == to
    && forall q :: 0 <= q < |status| && q != p ==> status'[q] == status[q]
  }

  /** What a step does to the status of the slots. */
  ghost predicate Statuses(status: seq<Scheduler.Status>, y: Sys, op: Op, status': seq<Scheduler.Status>) {
    match op
    case Fork => y.slots != [] && Turns(status, y.slots[0], Scheduler.Runnable, status')
    case Spawn(_) => y.slots != [] && Turns(status, y.slots[0], Scheduler.Runnable, status')
    case Exit => Turns(status, y.current, Scheduler.Stop, status')
    case _ => status' == status
  }

  lemma LiveStart(status: seq<Scheduler.Status>, pgdir: seq<nat>, p: nat, c: nat)
    requires p < |status| && p < |pgdir| && status[p] != Scheduler.Runnable
    ensures LiveOf(status[p := Scheduler.Runnable], pgdir[p := c]) == LiveOf(status, pgdir)[p := c]
  {
  }

  lemma LiveStop(status: seq<Scheduler.Status>, pgdir: seq<nat>, p: nat)
    requires p < |status| && p < |pgdir|
    ensures LiveOf(status[p := Scheduler.Stop], pgdir) == LiveOf(status, pgdir) - {p}
    ensures LiveOf(status[p := Scheduler.Stop], pgdir[p := 0]) == LiveOf(status, pgdir) - {p}
  {
  }

  class Kernel {
    const m: Machine
    /** procs[]: room for 1024 slots is cleared at boot, the first ten are used. */
    const status: array<Scheduler.Status>
    const pgdir: array<nat>
    const plink: array<int>
    var procHead: int
    var current: int
    ghost var slots: seq<nat>

    ghost function Live(): map<nat, nat>
      reads status, pgdir
    {
      LiveOf(status[..], pgdir[..])
    }

    /** The system as a value. */
    ghost function Y(): Sys
      reads this, status, pgdir, m, m.mem, m.count
    {
      Sys(m.S(), Live(), slots, current)
    }

    ghost predicate Rep()
      reads this, status, pgdir, plink, m, m.mem, m.count, m.link
    {
      && m.Valid()
      && status.Length == pgdir.Length == plink.Length == 1024
      && Apart()
      && Linked(plink[..], procHead, slots)
    }

    /** The process table and the page table share no array. */
    ghost predicate Apart() {
      && plink != m.count && plink != m.link && pgdir as object != plink
      && pgdir as object != m.count && pgdir as object != m.link
    }

    ghost predicate Ok()
      reads this, status, pgdir, plink, m, m.mem, m.count, m.link
    {
      Rep() && System.Valid(Y())
    }

    constructor (m: Machine)
      requires m.Valid() && m.ent == map[] && Settled(m.S())
      ensures Ok() && this.m == m && Live() == map[] && slots == Range(0, MAXPROC) && current == -1
      ensures fresh(this) && fresh(status) && fresh(pgdir) && fresh(plink)
    {
      this.m := m;
      status := new Scheduler.Status[1024](i => Scheduler.Running);
      pgdir := new nat[1024](i => 0);
      plink := new int[1024](i => NULL);
      procHead, current, slots := NULL, -1, [];
      new;
      InitProc();
      assert Live() == map[];
      BootValid(Y());
    }

    /** init_proc: all ten slots are on the free list, in order. */
    method InitProc()
      requires plink.Length == 1024 && slots == [] && procHead == NULL
      modifies this`procHead, this`slots, plink
      ensures Linked(plink[..], procHead, slots) && slots == Range(0, MAXPROC)
    {
      var i := MAXPROC - 1;
      while i >= 0
        invariant -1 <= i < MAXPROC
        invariant Linked(plink[..], procHead, slots) && slots == Range(i + 1, MAXPROC)
      {
        LinkedPush(plink[..], procHead, slots, i);
        ghost var l := plink[..];
        plink[i] := procHead;
        assert plink[..] == l[i := procHead];
        procHead := i;
        slots := [i] + slots;
        i := i - 1;
      }
    }

    method UserLoad(v: nat, i: nat) returns (x: nat)
      requires Ok() && Enabled(Y(), Load(v, i))
      modifies m, m.mem, m.count, m.link
      ensures Ok() && Y() == LoadStep(old(Y()), v, i)
      ensures Word(x) == LoadObs(old(Y()), v, i)
    {
      ghost var y := Y();
      LoadParts(y, v, i);
      hide Inv, FreeExact, Linked, System.Valid, TouchF, Live, Enabled, LoadStep, LoadObs, Touchable, Coherent;
      x := LoadWord(m, pgdir[current], v, i);
      assert Y() == y.(vm := TouchF(y.vm, v, false));
    }

    method UserStore(v: nat, i: nat, x: nat)
      requires Ok() && Enabled(Y(), Store(v, i, x))
      modifies m, m.mem, m.count, m.link
      ensures Ok() && Y() == StoreStep(old(Y()), v, i, x)
    {
      ghost var y := Y();
      StoreParts(y, v, i, x);
      hide Inv, FreeExact, Linked, System.Valid, TouchF, PokeF, Live, Enabled, StoreStep, Touchable, Coherent;
      StoreWord(m, pgdir[current], v, i, x);
      assert Y() == y.(vm := PokeF(TouchF(y.vm, v, true), v, i, x));
    }

    /** alloc_proc: the head of the free list, stopped. */
    method AllocProc() returns (p: nat)
      requires Slotted() && slots != [] && slots[0] < 1024 && status[slots[0]] != Scheduler.Runnable
      modifies this`procHead, this`slots, plink, status
      ensures Slotted() && p == old(slots)[0] < 1024 && slots == old(slots)[1..]
      ensures Live() == old(Live()) && Turns(old(status[..]), p, Scheduler.Stop, status[..])
    {
      p := procHead;
      LinkedPop(plink[..], procHead, slots);
      procHead := plink[p];
      ghost var l, t := plink[..], slots[1..];
      LiveStop(status[..], pgdir[..], p);
      assert LiveOf(status[..], pgdir[..]) - {p as nat} == LiveOf(status[..], pgdir[..]);
      status[p] := Scheduler.Stop;
      assert status[..] == old(status[..])[p := Scheduler.Stop];
      plink[p] := NULL;
      assert plink[..] == l[p := NULL];
      LinkedApart(l, procHead, t, p, slots);
      slots := t;
    }

    /** free_proc */
    method FreeProc(p: nat)
      requires Slotted() && p < 1024 && p !in slots
      modifies this`procHead, this`slots, plink
      ensures Slotted() && slots == [p] + old(slots)
    {
      LinkedPush(plink[..], procHead, slots, p);
      ghost var l := plink[..];
      plink[p] := procHead;
      assert plink[..] == l[p := procHead];
      procHead := p;
      slots := [p] + slots;
    }

    ghost predicate Slotted()
      reads this`procHead, this`slots, status, pgdir, plink
    {
      && status.Length == pgdir.Length == plink.Length == 1024
      && Linked(plink[..], procHead, slots)
      && (forall i, j :: 0 <= i < j < |slots| ==> slots[i] != slots[j])
    }

    /** The slot that alloc_proc would hand out is not in use. */
    lemma SlotReady()
      requires Ok() && slots != []
      ensures Slotted() && Apart() && slots[0] < MAXPROC && status[slots[0]] != Scheduler.Runnable
    {
      SlotParts(Y());
    }

    /** sys_fork, up to the open files.  Without a frame for the PML4 it fails and
        the slot that it took is lost. */
    method SysFork() returns (r: int)
      requires Ok() && current != -1 && slots != []
      requires m.free == [] || Enabled(Y(), Fork)
      modifies this`procHead, this`slots, status, pgdir, plink, m, m.mem, m.count
      ensures Rep()
      ensures Turns(old(status[..]), old(slots)[0], if r == -1 then Scheduler.Stop else Scheduler.Runnable, status[..])
      ensures old(m.free) == [] ==> r == -1 && Y() == old(Y()).(slots := old(slots)[1..])
      ensures old(m.free) != [] ==> Ok() && r == old(slots)[0] && Y() == ForkStep(old(Y()))
    {
      ghost var y := Y();
      SlotReady();
      CurrentParts(y);
      if m.free != [] { ForkStepParts(y); }
      assert pgdir[current] == m.cr3;
      hide Inv, FreeExact, System.Valid, ForkStep, ForkF, Coherent, Forkable, Forked, Enabled, Live, Linked;
      hide Machine.Valid, Slotted;
      var p := AllocProc();
      var c := ForkInto(p);
      if c == NULL { return -1; }
      r := p;
      ForkIs(y, Y());
    }

    /** The copied address space becomes that of slot p, which is made runnable. */
    method ForkInto(p: nat) returns (c: int)
      requires Slotted() && Apart() && p < 1024 && status[p] == Scheduler.Stop
      requires m.Valid() && 0 <= current < pgdir.Length && pgdir[current] == m.cr3 && Coherent(m.S())
      requires m.free == [] || Forkable(m.S(), m.cr3)
      modifies status, pgdir, m, m.mem, m.count
      ensures Slotted() && m.Valid()
      ensures old(m.free) == [] ==>
        c == NULL && m.S() == old(m.S()) && Live() == old(Live()) && status[..] == old(status[..])
      ensures old(m.free) != [] ==>
        c == old(m.free)[0] && Forked(old(m.S()), m.S(), old(m.cr3), c)
        && Live() == old(Live())[p := c as nat] && Turns(old(status[..]), p, Scheduler.Runnable, status[..])
    {
      hide Inv, FreeExact, Coherent, Forkable, Forked, Live, Linked, Machine.Valid, Slotted;
      c := ForkVm(m, pgdir[current]);
      if c == NULL { return; }
      Publish(p, c);
    }

    /** p->pgdir = pgdir; p->status = RUNNABLE */
    method Publish(p: nat, c: nat)
      requires Slotted() && p < 1024 && status[p] == Scheduler.Stop
      modifies status, pgdir
      ensures Slotted() && Live() == old(Live())[p := c]
      ensures Turns(old(status[..]), p, Scheduler.Runnable, status[..])
    {
      ghost var st, pg := status[..], pgdir[..];
      LiveStart(st, pg, p, c);
      pgdir[p] := c;
      status[p] := Scheduler.Runnable;
      assert status[..] == st[p := Scheduler.Runnable] && pgdir[..] == pg[p := c];
    }

    /** destroy_proc of the running process, up to its open files: teardown, the
        slot goes back to the head of the free list, nobody runs. */
    method DestroyCurrent()
      requires Ok() && current != -1
      modifies this`procHead, this`slots, this`current, status, pgdir, plink, m, m.mem, m.count, m.link
      ensures Ok() && Y() == ExitStep(old(Y()))
      ensures Turns(old(status[..]), old(current), Scheduler.Stop, status[..])
      ensures 0 <= old(current) < pgdir.Length && pgdir[..] == old(pgdir[..])[old(current) := 0]
    {
      ghost var y := Y();
      ExitReady();
      assert y.vm.cr3 == m.cr3;
      hide Inv, FreeExact, System.Valid, ExitStep, DestroyF, Destroyable, Coherent, Linked, Machine.Valid, Machine.S;
      hide Live, Slotted, Rep, Enabled;
      Reclaim(current);
      NowIdle(y);
    }

    /** current = NULL, once the slot is reclaimed. */
    method NowIdle(ghost y: Sys)
      requires System.Valid(y) && Enabled(y, Exit) && Destroyable(y.vm, y.vm.cr3) && 0 <= y.current
      requires System.Valid(ExitStep(y)) && Slotted() && Apart() && m.Valid()
      requires m.S() == DestroyF(y.vm, y.vm.cr3) && slots == [y.current] + y.slots
      requires Live() == y.pgdir - {y.current}
      modifies this`current
      ensures Ok() && Y() == ExitStep(y)
    {
      hide Inv, FreeExact, System.Valid, ExitStep, DestroyF, Destroyable, Machine.Valid, Machine.S, Live, Linked;
      current := -1;
      ExitIs(y, Y());
    }

    /** What Reclaim asks for, in a system in order. */
    lemma ExitReady()
      requires Ok() && current != -1
      ensures Slotted() && Apart() && 0 <= current < pgdir.Length && current !in slots
      ensures m.Valid() && pgdir[current] == m.cr3 && Destroyable(m.S(), m.cr3)
      ensures Rep() && System.Valid(Y()) && Enabled(Y(), Exit) && System.Valid(ExitStep(Y()))
    {
      CurrentParts(Y());
      ExitParts(Y());
      SlotParts(Y());
    }

    lemma SlottedSizes()
      requires Slotted()
      ensures plink.Length == pgdir.Length == status.Length == 1024
    {
    }

    /** destroy_vm, free_proc and the new status of slot p. */
    method Reclaim(p: nat)
      requires Slotted() && Apart() && p < pgdir.Length && p !in slots
      requires m.Valid() && pgdir[p] == m.cr3 && Destroyable(m.S(), m.cr3)
      modifies this`procHead, this`slots, status, pgdir, plink, m, m.mem, m.count, m.link
      ensures pgdir[..] == old(pgdir[..])[p := 0]
      ensures Slotted() && m.Valid() && m.S() == DestroyF(old(m.S()), old(m.cr3))
      ensures slots == [p] + old(slots) && Live() == old(Live()) - {p}
      ensures Turns(old(status[..]), p, Scheduler.Stop, status[..])
    {
      hide Inv, FreeExact, DestroyF, Destroyable, Live, Linked, Machine.Valid, Slotted, Machine.S;
      SlottedSizes();
      DestroyVm(m, pgdir[p]);
      ghost var t := m.S();
      Retire(p);
      assert m.S() == t;
    }

    method Retire(p: nat)
      requires Slotted() && Apart() && p < pgdir.Length && p !in slots
      modifies this`procHead, this`slots, status, pgdir, plink
      ensures pgdir[..] == old(pgdir[..])[p := 0]
      ensures Slotted() && slots == [p] + old(slots) && Live() == old(Live()) - {p}
      ensures Turns(old(status[..]), p, Scheduler.Stop, status[..])
    {
      assert plink.Length == pgdir.Length == status.Length == 1024;
      hide Live, Linked, Slotted;
      FreeProc(p);
      Halt(p);
    }

    /** p->pgdir = NULL; p->status = STOP */
    method Halt(p: nat)
      requires Slotted() && p < 1024
      modifies status, pgdir
      ensures pgdir[..] == old(pgdir[..])[p := 0]
      ensures Slotted() && Live() == old(Live()) - {p}
      ensures Turns(old(status[..]), p, Scheduler.Stop, status[..])
    {
      LiveStop(status[..], pgdir[..], p);
      pgdir[p] := 0;
      status[p] := Scheduler.Stop;
      assert status[..] == old(status[..])[p := Scheduler.Stop] && pgdir[..] == old(pgdir[..])[p := 0];
    }

    /** run_proc: load cr3, which flushes the TLB, and make p the current process. */
    method RunProc(p: nat)
      requires Ok() && p in Live()
      modifies this`current, m`cr3, m`tlb
      ensures Ok() && Y() == SwitchStep(old(Y()), p)
    {
      hide Inv, FreeExact, System.Valid, Linked;
      ghost var y := Y();
      SwitchRefines(y, p);
      SwitchParts(y, p);
      m.cr3 := pgdir[p];
      m.tlb := map[];
      current := p;
      assert Y() == SwitchStep(y, p);
    }

    /** The scan of schedule: the slots after curind are probed in turn; the index
        wraps after the first probe only. */
    method FindRunnable(curind: nat) returns (next: int)
      requires status.Length == pgdir.Length == 1024 && curind < MAXPROC
      requires forall p :: p in Live() ==> p < MAXPROC
      ensures next == Scheduler.Next(Live().Keys, curind)
      ensures next >= 0 ==> next in Live()
    {
      ghost var run := Live().Keys;
      assert forall p :: 0 <= p < 1024 ==> (p in run <==> status[p] == Scheduler.Runnable);
      var nextind := curind + 1;
      ghost var d := 1;
      Scheduler.AtStep(curind, 1);
      hide Scheduler.At, Live;
      while curind != nextind
        invariant 1 <= d <= MAXPROC && 0 <= nextind <= MAXPROC
        invariant nextind == if d == 1 then curind + 1 else Scheduler.At(curind, d)
        invariant Scheduler.Next(run, curind) ==
          Scheduler.Scan(run, curind, if curind == Scheduler.LAST && d == 1 then 2 else d)
        decreases MAXPROC - d
      {
        if status[nextind] == Scheduler.Runnable {
          return nextind;
        }
        Scheduler.AtStep(curind, d);
        nextind := nextind + 1;
        nextind := nextind % MAXPROC;
        d := d + 1;
      }
      if status[curind] == Scheduler.Runnable {
        return curind;
      }
      return -1;
    }

    /** schedule: run what the scan finds; nobody runnable, nobody runs. */
    method Schedule()
      requires Ok()
      modifies this`current, m`cr3, m`tlb
      ensures Ok()
      ensures var cur := if old(current) == -1 then 0 else old(current);
        var next := Scheduler.Next(old(Live()).Keys, cur);
        if next >= 0 then next in old(Live()) && Y() == SwitchStep(old(Y()), next)
        else Y() == old(Y()).(current := -1)
    {
      hide Inv, FreeExact, System.Valid, Linked, Live;
      LiveBelow(Y());
      if current != -1 { CurrentParts(Y()); }
      Idle(Y());
      var next := FindRunnable(if current == -1 then 0 else current);
      if next >= 0 {
        RunProc(next);
      } else {
        current := -1;
      }
    }

    /** The MMU caches a translation on its own. */
    method Fill(v: nat)
      requires Ok() && Enabled(Y(), Cache(v))
      modifies m`tlb
      ensures Ok() && Y() == CacheStep(old(Y()), v)
    {
      hide Inv, System.Valid, Linked, Live, CacheF, FreeExact;
      ghost var y := Y();
      CacheRefines(y, v);
      AccessReady(y, v);
      CacheTlb(m, v);
      assert Y() == CacheStep(y, v);
    }

    /** The MMU drops a translation on its own. */
    method Drop(v: nat)
      requires Ok()
      modifies m`tlb
      ensures Ok() && Y() == old(Y()).(vm := DropTlb(old(Y()).vm, v))
    {
      hide Inv, System.Valid, Linked, Live, FreeExact;
      ghost var y := Y();
      EvictRefines(y, v);
      m.TlbInvalid(v);
      assert Y() == Step(y, Evict(v));
    }

    /** One trap, system call or access of the running system; execve and create_proc
        are methods of their own. */
    method Serve(op: Op) returns (obs: Obs)
      requires Ok() && Enabled(Y(), op) && !op.Exec? && !op.Refuse? && !op.Spawn?
      modifies this, status, pgdir, plink, m, m.mem, m.count, m.link
      ensures Ok() && Y() == Step(old(Y()), op) && obs == Observe(old(Y()), op)
      ensures Statuses(old(status[..]), old(Y()), op, status[..])
    {
      hide Inv, FreeExact, System.Valid, Linked, Machine.Valid, Live, LoadStep, StoreStep, ForkStep, ExecStep,
          RefuseStep, SpawnStep,
            ExitStep, SwitchStep, CacheStep, LoadObs;
      obs := Nothing;
      match op
      case Load(v, i) =>
        var x := UserLoad(v, i);
        obs := Word(x);
      case Store(v, i, x) =>
        UserStore(v, i, x);
      case Fork =>
        FreeForFork(Y());
        var r := SysFork();
        obs := Child(r);
      case Exit =>
        DestroyCurrent();
      case Switch(p) =>
        RunProc(p);
      case Cache(v) =>
        Fill(v);
      case Evict(v) =>
        Drop(v);
    }
  }

  lemma Idle(y: Sys)
    requires System.Valid(y)
    ensures System.Valid(y.(current := -1))
  {
    hide UserOk, Inv;
    forall k | k in y.vm.ent ensures SpaceOwned(y.(current := -1), k) { assert SpaceOwned(y, k); }
  }

  lemma LiveBelow(y: Sys)
    requires System.Valid(y)
    ensures forall p :: p in y.pgdir ==> p < MAXPROC
  {
  }

  lemma SwitchParts(y: Sys, p: nat)
    requires System.Valid(y) && p in y.pgdir
    ensures Inv(SwitchStep(y, p).vm) && p < MAXPROC
  {
    TlbOnly(y.vm, LoadCr3F(y.vm, y.pgdir[p]));
  }

  lemma ExitParts(y: Sys)
    requires System.Valid(y) && y.current != -1
    ensures Destroyable(y.vm, y.vm.cr3) && System.Valid(ExitStep(y)) && y.vm.cr3 == y.vm.cr3
  {
    hide UserOk, Inv, ExitStep;
    assert Enabled(y, Exit);
    CurrentSpace(y);
    DestroyOk(y.vm, y.vm.cr3);
    ExitRefines(y);
  }

  lemma ExitIs(y: Sys, z: Sys)
    requires System.Valid(y) && Enabled(y, Exit) && Destroyable(y.vm, y.vm.cr3)
    requires z.vm == DestroyF(y.vm, y.vm.cr3) && 0 <= y.current
    requires z.pgdir == y.pgdir - {y.current} && z.slots == [y.current] + y.slots && z.current == -1
    ensures z == ExitStep(y)
  {
    hide DestroyF, System.Valid, Inv, Destroyable;
  }

  /** The free slots of a system in order are distinct, in range and not live. */
  lemma SlotParts(y: Sys)
    requires System.Valid(y)
    ensures forall i, j :: 0 <= i < j < |y.slots| ==> y.slots[i] != y.slots[j]
    ensures forall i :: 0 <= i < |y.slots| ==> y.slots[i] < MAXPROC && y.slots[i] !in y.pgdir
  {
  }

  lemma ForkStepParts(y: Sys)
    requires System.Valid(y) && Enabled(y, Fork)
    ensures Forkable(y.vm, y.vm.cr3) && y.vm.free != [] && y.slots != []
    ensures System.Valid(ForkStep(y))
  {
    CurrentParts(y);
    FreeForFork(y);
    ForkReady(y);
    ForkRefines(y);
  }

  lemma ForkIs(y: Sys, z: Sys)
    requires System.Valid(y) && Enabled(y, Fork) && y.vm.free != [] && y.slots != []
    requires Forked(y.vm, z.vm, y.vm.cr3, y.vm.free[0])
    requires z.pgdir == y.pgdir[y.slots[0] := y.vm.free[0]] && z.slots == y.slots[1..]
    requires z.current == y.current
    ensures z == ForkStep(y)
  {
    hide ForkF, System.Valid, Inv, Regions;
  }

  lemma LinkedApart(link: seq<int>, phead: int, t: seq<nat>, p: nat, free: seq<nat>)
    requires free != [] && t == free[1..] && p == free[0] && p < |link|
    requires Linked(link, phead, t)
    requires forall i, j :: 0 <= i < j < |free| ==> free[i] != free[j]
    ensures Linked(link[p := NULL], phead, t)
  {
    var l := link[p := NULL];
    forall i | 0 <= i < |t| ensures LinkAt(l, t, i) {
      assert LinkAt(link, t, i) && t[i] == free[i + 1];
    }
  }

  /** What the current process's slot says, for a system in order. */
  lemma CurrentParts(y: Sys)
    requires System.Valid(y) && y.current != -1
    ensures 0 <= y.current < MAXPROC && y.current in y.pgdir && y.pgdir[y.current] == y.vm.cr3
    ensures Coherent(y.vm) && Inv(y.vm)
  {
    CurrentSpace(y);
    LiveSlot(y);
  }

  lemma LoadParts(y: Sys, v: nat, i: nat)
    requires System.Valid(y) && Enabled(y, Load(v, i))
    ensures 0 <= y.current < MAXPROC && y.current in y.pgdir && y.pgdir[y.current] == y.vm.cr3
    ensures Coherent(y.vm) && Touchable(y.vm, v, false) && i < 512
    ensures var t := TouchF(y.vm, v, false);
      && v in t.tlb && UserFrame(t, v) < |t.mem|
      && LoadStep(y, v, i) == y.(vm := t) && System.Valid(LoadStep(y, v, i))
      && LoadObs(y, v, i) == Word(t.mem[UserFrame(t, v)][i])
  {
    CurrentParts(y);
    TouchReady(y, v, false);
    LoadRefines(y, v, i);
  }

  lemma StoreParts(y: Sys, v: nat, i: nat, x: nat)
    requires System.Valid(y) && Enabled(y, Store(v, i, x))
    ensures 0 <= y.current < MAXPROC && y.current in y.pgdir && y.pgdir[y.current] == y.vm.cr3
    ensures Coherent(y.vm) && Touchable(y.vm, v, true) && i < 512
    ensures var t := TouchF(y.vm, v, true);
      && v in t.tlb && UserFrame(t, v) < |t.mem| && Inv(PokeF(t, v, i, x))
      && StoreStep(y, v, i, x) == y.(vm := PokeF(t, v, i, x)) && System.Valid(StoreStep(y, v, i, x))
  {
    CurrentParts(y);
    TouchReady(y, v, true);
    StoreRefines(y, v, i, x);
  }

  /** Before the first process everything is in order. */
  lemma BootValid(y: Sys)
    requires Inv(y.vm) && Settled(y.vm) && y.vm.ent == map[]
    requires y.pgdir == map[] && y.slots == Range(0, MAXPROC) && y.current == -1
    ensures System.Valid(y)
  {
    forall p | 0 <= p < MAXPROC ensures p in y.slots { assert y.slots[p] == p; }
  }
}
