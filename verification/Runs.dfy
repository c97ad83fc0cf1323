/** Whole runs of the kernel: traps, system calls and context switches, execve and the
    creation of processes in any order, against the eager-copy machine. */
module Runs {
  import opened Words
  import opened Vm
  import opened System
  import opened ExecSpace
  import opened Steps
  import opened Refinement
  import opened Held
  import opened Mm
  import opened Proc
  import opened Elf
  import Disk
  import Directory
  import Layout
  import KernelFs
  import Exec
  import Spawn

  /** A request: a step as it is, the execution of file ino of c blocks by its name,
      or create_proc for an image in memory. */
  datatype Call =
    | Plain(op: Op)
    | Execve(name: seq<Disk.byte>, ino: nat, c: nat)
    | Create(image: seq<Disk.byte>)

  /** What the code expects of a request. */
  ghost predicate Ready(y: Sys, f: Disk.Fs, call: Call) {
    match call
    case Plain(op) => Enabled(y, op) && !op.Exec? && !op.Refuse? && !op.Spawn?
    case Execve(name, ino, c) =>
      && y.current != -1 && Disk.DirOk(f) && Directory.IsName(name) && Layout.Finds(f, name, ino)
      && ino < |f.inodes| && Exec.Loadable(f, ino, c, y.vm)
    case Create(image) => Spawn.Creatable(y, image)
  }

  /** The window of the plan is what file ino describes, and its blocks were read. */
  ghost predicate Describes(f: Disk.Fs, ino: nat, plan: seq<Mapping>) {
    var h := Exec.Header(f, ino);
    && HeadersFit(h) && KeptIn(plan) == ImageReads(Segs(h), |Segs(h)|)
    && exists was: map<nat, Frame> :: Image(PagesIn(plan), was, Stored(f, ino), Segs(h))
  }

  /** The window of the plan is what an image in memory describes. */
  ghost predicate Boots(image: seq<Disk.byte>, plan: seq<Mapping>) {
    && Spawn.ImageOk(image) && KeptIn(plan) == 0
    && exists was: map<nat, Frame> :: Spawn.Boots(image, PagesIn(plan), was)
  }

  /** The step that a request turns into. */
  ghost predicate Becomes(y: Sys, f: Disk.Fs, call: Call, op: Op) {
    && Enabled(y, op)
    && match call
       case Plain(o) => op == o
       case Execve(name, ino, c) =>
         if Magic(Exec.Header(f, ino)) then op.Exec? && Describes(f, ino, op.plan) else op.Refuse?
       case Create(image) => op.Spawn? && Boots(image, op.plan)
  }

  /** Each request is ready when its turn comes, whatever the ones before turned into. */
  ghost predicate Servable(y: Sys, f: Disk.Fs, calls: seq<Call>)
    requires System.Valid(y)
    decreases |calls|
  {
    calls != [] ==>
      && Ready(y, f, calls[0])
      && forall op {:trigger Becomes(y, f, calls[0], op)} :: Becomes(y, f, calls[0], op) ==>
           (StepRefines(y, op); Servable(Step(y, op), f, calls[1..]))
  }

  lemma ServableNext(y: Sys, f: Disk.Fs, calls: seq<Call>, n: nat, op: Op)
    requires System.Valid(y) && n < |calls| && Servable(y, f, calls[n..]) && Becomes(y, f, calls[n], op)
    ensures System.Valid(Step(y, op)) && Servable(Step(y, op), f, calls[n + 1..])
  {
    hide System.Valid, Step, Enabled, Ready;
    assert calls[n..][0] == calls[n] && calls[n..][1..] == calls[n + 1..];
    StepRefines(y, op);
  }

  /** ops are the steps that the requests turned into. */
  ghost predicate Performs(y: Sys, f: Disk.Fs, calls: seq<Call>, ops: seq<Op>)
    requires System.Valid(y)
    decreases |ops|
  {
    && |ops| == |calls|
    && (ops != [] ==>
          && Becomes(y, f, calls[0], ops[0])
          && (StepRefines(y, ops[0]); Performs(Step(y, ops[0]), f, calls[1..], ops[1..])))
  }

  /** One step more at the end of a run. */
  lemma {:induction false} RunMore(y: Sys, f: Disk.Fs, calls: seq<Call>, ops: seq<Op>, call: Call, op: Op)
    requires System.Valid(y) && Performs(y, f, calls, ops) && AllEnabled(y, ops) && Becomes(Run(y, ops), f, call, op)
    ensures Performs(y, f, calls + [call], ops + [op]) && AllEnabled(y, ops + [op]) && System.Valid(Run(y, ops))
    ensures Run(y, ops + [op]) == Step(Run(y, ops), op)
    ensures Trace(y, ops + [op]) == Trace(y, ops) + [Observe(Run(y, ops), op)]
    decreases |ops|
  {
    hide System.Valid, Step, Observe, Enabled, Becomes, EagerOf, EagerStep, EagerObs, EagerValid, EagerEnabled;
    BecomesEnabled(Run(y, ops), f, call, op);
    if ops == [] {
      assert calls + [call] == [call] && ops + [op] == [op];
      StepRefines(y, op);
      RunNothing(Step(y, op));
    } else {
      StepRefines(y, ops[0]);
      RunMore(Step(y, ops[0]), f, calls[1..], ops[1..], call, op);
      assert (ops + [op])[1..] == ops[1..] + [op] && (calls + [call])[1..] == calls[1..] + [call];
    }
  }

  lemma BecomesEnabled(y: Sys, f: Disk.Fs, call: Call, op: Op)
    requires Becomes(y, f, call, op)
    ensures Enabled(y, op)
  {
  }

  lemma RunNothing(y: Sys)
    requires System.Valid(y)
    ensures AllEnabled(y, []) && Run(y, []) == y && Trace(y, []) == []
  {
  }

  /** Slot p is that of a process at some time of a run. */
  ghost predicate EverLive(y: Sys, ops: seq<Op>, p: nat)
    requires System.Valid(y) && AllEnabled(y, ops)
    decreases |ops|
  {
    p in y.pgdir || (ops != [] && (StepRefines(y, ops[0]); EverLive(Step(y, ops[0]), ops[1..], p)))
  }

  lemma {:induction false} EverLiveMore(y: Sys, ops: seq<Op>, op: Op, p: nat)
    requires System.Valid(y) && AllEnabled(y, ops) && AllEnabled(y, ops + [op])
    ensures EverLive(y, ops + [op], p) <==> EverLive(y, ops, p) || p in Run(y, ops + [op]).pgdir
    decreases |ops|
  {
    hide System.Valid, Step, Enabled;
    if ops == [] {
      assert ops + [op] == [op];
    } else {
      assert (ops + [op])[1..] == ops[1..] + [op];
      StepRefines(y, ops[0]);
      EverLiveMore(Step(y, ops[0]), ops[1..], op, p);
    }
  }

  lemma {:induction false} LiveIsEver(y: Sys, ops: seq<Op>, p: nat)
    requires System.Valid(y) && AllEnabled(y, ops) && p in Run(y, ops).pgdir
    ensures EverLive(y, ops, p)
    decreases |ops|
  {
    hide System.Valid, Step, Enabled;
    if ops != [] {
      StepRefines(y, ops[0]);
      LiveIsEver(Step(y, ops[0]), ops[1..], p);
    }
  }

  /** Which slots a step gives to a process or takes back. */
  lemma StepSlots(y: Sys, op: Op)
    requires System.Valid(y) && Enabled(y, op)
    ensures Step(y, op).pgdir.Keys ==
      match op
      case Fork => y.pgdir.Keys + {y.slots[0]}
      case Spawn(_) => y.pgdir.Keys + {y.slots[0]}
      case Exit => y.pgdir.Keys - {y.current as nat}
      case _ => y.pgdir.Keys
  {
    hide System.Valid, Inv, Enabled, LoadF, HeadF;
  }

  lemma StatusStep(y: Sys, op: Op, now: seq<Scheduler.Status>, next: seq<Scheduler.Status>, p: nat)
    requires System.Valid(y) && Enabled(y, op) && Statuses(now, y, op, next) && p < |now|
    ensures |next| == |now|
    ensures next[p] ==
      if p in Step(y, op).pgdir && p !in y.pgdir then Scheduler.Runnable
      else if p in y.pgdir && p !in Step(y, op).pgdir then Scheduler.Stop
      else now[p]
  {
    hide Inv, Step, SpacesOk, ExecEnabled, SpawnEnabled;
    StepSlots(y, op);
  }

  /** The status of a slot after a run: runnable if it is that of a process, stopped if it
      once was, untouched if it never was. */
  ghost predicate StatusIs(status: seq<Scheduler.Status>, y: Sys, ops: seq<Op>, status': seq<Scheduler.Status>, p: nat)
    requires System.Valid(y) && AllEnabled(y, ops)
  {
    p < |status| == |status'| &&
    status'[p] == if p in Run(y, ops).pgdir then Scheduler.Runnable
                  else if EverLive(y, ops, p) then Scheduler.Stop
                  else status[p]
  }

  /** A process that has exited stays stopped until its slot is handed out again: a step
      keeps what is said of each slot. */
  lemma StatusMore(status: seq<Scheduler.Status>, y: Sys, ops: seq<Op>, now: seq<Scheduler.Status>, op: Op,
                   next: seq<Scheduler.Status>, p: nat)
    requires System.Valid(y) && AllEnabled(y, ops) && AllEnabled(y, ops + [op]) && StatusIs(status, y, ops, now, p)
    requires var z := Run(y, ops);
      System.Valid(z) && Enabled(z, op) && Run(y, ops + [op]) == Step(z, op) && Statuses(now, z, op, next)
    ensures StatusIs(status, y, ops + [op], next, p)
  {
    hide System.Valid, Enabled, Step, Run, EverLive, Statuses;
    EverLiveMore(y, ops, op, p);
    if p in Run(y, ops).pgdir { LiveIsEver(y, ops, p); }
    StatusStep(Run(y, ops), op, now, next, p);
  }

  ghost predicate StatusesAre(status: seq<Scheduler.Status>, y: Sys, ops: seq<Op>, status': seq<Scheduler.Status>) {
    && System.Valid(y) && AllEnabled(y, ops) && |status'| == |status|
    && forall p: nat {:trigger StatusIs(status, y, ops, status', p)} ::
         p < |status| ==> StatusIs(status, y, ops, status', p)
  }

  lemma StatusesMore(status: seq<Scheduler.Status>, y: Sys, ops: seq<Op>, now: seq<Scheduler.Status>, op: Op,
                     next: seq<Scheduler.Status>)
    requires StatusesAre(status, y, ops, now) && AllEnabled(y, ops + [op]) && System.Valid(Run(y, ops))
    requires Enabled(Run(y, ops), op) && Run(y, ops + [op]) == Step(Run(y, ops), op)
    requires Statuses(now, Run(y, ops), op, next)
    ensures StatusesAre(status, y, ops + [op], next)
  {
    hide System.Valid, Enabled, Step, Run, AllEnabled, StatusIs;
    var run := ops + [op];
    StatusesLength(now, Run(y, ops), op, next);
    forall p: nat | p < |status| ensures StatusIs(status, y, run, next, p) {
      assert StatusIs(status, y, ops, now, p);
      StatusMore(status, y, ops, now, op, next, p);
    }
  }

  lemma StatusesLength(now: seq<Scheduler.Status>, y: Sys, op: Op, next: seq<Scheduler.Status>)
    requires Statuses(now, y, op, next)
    ensures |next| == |now|
  {
  }

  /** At the start the runnable slots are those of the processes. */
  lemma StatusesStart(y: Sys, status: seq<Scheduler.Status>)
    requires System.Valid(y) && forall p: nat :: p < |status| ==> (p in y.pgdir <==> status[p] == Scheduler.Runnable)
    ensures StatusesAre(status, y, [], status)
  {
    hide System.Valid;
    RunNothing(y);
    forall p: nat | p < |status| ensures StatusIs(status, y, [], status, p) { }
  }

  /** The disk reads into the kernel's memory, and shares no array with the process table. */
  ghost predicate Connected(k: Kernel, vol: KernelFs.Volume) {
    vol.machine == k.m && vol.bitmap != k.pgdir && vol.bitmap != k.plink as object
  }

  method Execute(k: Kernel, vol: KernelFs.Volume, name: seq<Disk.byte>, ino: nat, c: nat)
    returns (obs: Obs, ghost op: Op)
    requires k.Ok() && vol.Valid() && Connected(k, vol) && Ready(k.Y(), vol.S(), Execve(name, ino, c))
    modifies k, k.m, k.m.mem, k.m.count, k.m.link, vol.bitmap, vol.inodes
    ensures k.Ok() && vol.Valid() && vol.S() == old(vol.S())
    ensures Becomes(old(k.Y()), old(vol.S()), Execve(name, ino, c), op)
    ensures Statuses(old(k.status[..]), old(k.Y()), op, k.status[..])
    ensures k.Y() == Step(old(k.Y()), op) && obs == Observe(old(k.Y()), op)
  {
    hide System.Valid, Step, Enabled, Inv, Disk.Own, Disk.DirOk, Layout.Finds, Exec.Loadable, Image, Exec.Stale, Magic,
          Exec.Header, Exec.Paid, HeadersFit, Segs, PagesIn, KeptIn, ImageReads, Kernel.Live, Machine.Valid, LoadObs;
    ghost var was;
    var r;
    r, op, was := Exec.Execve(k, vol, name, ino, c);
    obs := if r == -1 then Refused else Nothing;
    assert op.Exec? || op.Refuse?;
    assert k.status[..] == old(k.status[..]);
  }

  method Start(k: Kernel, image: seq<Disk.byte>) returns (p: nat, ghost op: Op)
    requires k.Ok() && Spawn.Creatable(k.Y(), image)
    modifies k, k.status, k.pgdir, k.plink, k.m, k.m.mem, k.m.count
    ensures k.Ok() && Enabled(old(k.Y()), op) && op.Spawn? && Boots(image, op.plan)
    ensures k.Y() == Step(old(k.Y()), op) && Child(p) == Observe(old(k.Y()), op)
    ensures Statuses(old(k.status[..]), old(k.Y()), op, k.status[..])
  {
    hide System.Valid, Step, Enabled, Inv, Kernel.Live, Machine.Valid, Spawn.Creatable, Spawn.ImageOk, Spawn.Boots, PagesIn,
          KeptIn, LoadObs;
    ghost var was;
    CreatableImage(k.Y(), image);
    p, op, was := Spawn.CreateProc(k, image);
  }

  lemma CreatableImage(y: Sys, image: seq<Disk.byte>)
    requires Spawn.Creatable(y, image)
    ensures Spawn.ImageOk(image) && y.slots != []
  {
  }

  /** One request. */
  method Serve(k: Kernel, vol: KernelFs.Volume, call: Call) returns (obs: Obs, ghost op: Op)
    requires k.Ok() && vol.Valid() && Connected(k, vol) && Ready(k.Y(), vol.S(), call)
    modifies k, k.status, k.pgdir, k.plink, k.m, k.m.mem, k.m.count, k.m.link, vol.bitmap, vol.inodes
    ensures k.Ok() && vol.Valid() && vol.S() == old(vol.S())
    ensures Becomes(old(k.Y()), old(vol.S()), call, op)
    ensures k.Y() == Step(old(k.Y()), op) && obs == Observe(old(k.Y()), op)
    ensures Statuses(old(k.status[..]), old(k.Y()), op, k.status[..])
  {
    hide System.Valid, Step, Enabled, Inv, Disk.Own, Kernel.Live, Machine.Valid, Exec.Loadable, Exec.Header, Layout.Finds,
          Describes, Boots, Spawn.Creatable, Statuses;
    match call
    case Plain(o) =>
      op := o;
      obs := k.Serve(o);
    case Execve(name, ino, c) =>
      obs, op := Execute(k, vol, name, ino, c);
    case Create(image) =>
      var p;
      p, op := Start(k, image);
      obs := Child(p);
  }

  /** A whole run of the kernel is a run of the eager-copy machine: after any requests,
      in any order, every process has observed what it would if fork copied its window,
      exec replaced it and a new process started with its image alone. */
  method ServeAll(k: Kernel, vol: KernelFs.Volume, calls: seq<Call>) returns (trace: seq<Obs>, ghost ops: seq<Op>)
    requires k.Ok() && vol.Valid() && Connected(k, vol) && Servable(k.Y(), vol.S(), calls)
    modifies k, k.status, k.pgdir, k.plink, k.m, k.m.mem, k.m.count, k.m.link, vol.bitmap, vol.inodes
    ensures k.Ok() && vol.Valid() && vol.S() == old(vol.S())
    ensures Performs(old(k.Y()), old(vol.S()), calls, ops)
    ensures EagerRuns(EagerOf(old(k.Y())), ops, EagerOf(k.Y()), trace)
    ensures StatusesAre(old(k.status[..]), old(k.Y()), ops, k.status[..])
    ensures AllHeld(old(k.Y()).vm, k.Y().vm)
  {
    hide System.Valid, Step, Observe, Enabled, Ready, Becomes, Servable, Performs, AllEnabled, Run, Trace, Inv, Disk.Own,
          EagerOf, EagerRuns, StatusesAre, Statuses, AllHeld;
    ghost var y, f, was := k.Y(), vol.S(), k.status[..];
    StatusesStart(y, was);
    trace, ops := [], [];
    RunNothing(y);
    PerformsNothing(y, f);
    var n := 0;
    assert calls[0..] == calls && calls[..0] == [];
    while n < |calls|
      invariant 0 <= n <= |calls| && k.Ok() && vol.Valid() && vol.S() == f && System.Valid(y) && AllEnabled(y, ops)
      invariant Servable(k.Y(), f, calls[n..]) && Performs(y, f, calls[..n], ops)
      invariant k.Y() == Run(y, ops) && trace == Trace(y, ops) && StatusesAre(was, y, ops, k.status[..])
    {
      ServableReady(k.Y(), f, calls, n);
      ghost var z, now := k.Y(), k.status[..];
      ghost var op;
      var obs;
      obs, op := Serve(k, vol, calls[n]);
      ServableNext(z, f, calls, n, op);
      RunMore(y, f, calls[..n], ops, calls[n], op);
      assert calls[..n] + [calls[n]] == calls[..n + 1];
      BecomesEnabled(z, f, calls[n], op);
      StatusesMore(was, y, ops, now, op, k.status[..]);
      trace := trace + [obs];
      ops := ops + [op];
      n := n + 1;
    }
    assert calls[..n] == calls;
    CopyOnWriteRefinesEagerCopy(y, ops);
    HeldForever(y, ops);
  }

  lemma ServableReady(y: Sys, f: Disk.Fs, calls: seq<Call>, n: nat)
    requires System.Valid(y) && n < |calls| && Servable(y, f, calls[n..])
    ensures Ready(y, f, calls[n])
  {
    hide System.Valid, Step, Enabled, Ready;
  }

  lemma PerformsNothing(y: Sys, f: Disk.Fs)
    requires System.Valid(y)
    ensures Performs(y, f, [], [])
  {
  }
}
