/** Open files and descriptors: kernel/file.c's file table with reference counts, and
    the descriptor tables that fork copies and exit releases. */
module OpenFiles {
  import opened Limits

  type Table = t: seq<int> | |t| == 32 witness seq(32, i => -1)

  function NoFiles(): (t: Table)
    ensures forall i :: 0 <= i < 32 ==> t[i] == -1
  {
    seq(32, i => -1)
  }

  /** Descriptor tables (-1 is NULL), reference counts, the live processes, and how
      often each file lost a descriptor that still named it. */
  datatype Files = Files(tables: seq<Table>, refs: seq<int>, live: set<nat>, lost: seq<nat>)

  type Desc = (nat, nat)

  ghost predicate Shape(s: Files) {
    && |s.tables| == MAXPROC && |s.refs| == MAXFILE && |s.lost| == MAXFILE
    && (forall p :: p in s.live ==> p < MAXPROC)
    && (forall p, d {:trigger s.tables[p][d]} :: 0 <= p < MAXPROC && 0 <= d < 32 ==> -1 <= s.tables[p][d] < MAXFILE)
  }

  /** The live descriptors that name file f, leaving out the first n of process q. */
  ghost function NamesBut(s: Files, f: nat, q: nat, n: nat): set<Desc>
    requires Shape(s)
  {
    set p, d | p in s.live && 0 <= d < 32 && s.tables[p][d] == f && !(p == q && d < n) :: (p, d)
  }

  ghost function Names(s: Files, f: nat): set<Desc>
    requires Shape(s)
  {
    NamesBut(s, f, 0, 0)
  }

  ghost predicate RefsAt(s: Files, f: nat, q: nat, n: nat)
    requires Shape(s) && f < MAXFILE
  {
    s.refs[f] == |NamesBut(s, f, q, n)| + s.lost[f]
  }

  /** Reference counts are exact but for the lost descriptors. */
  ghost predicate Counted(s: Files, q: nat, n: nat)
    requires Shape(s)
  {
    forall f {:trigger RefsAt(s, f, q, n)} :: 0 <= f < MAXFILE ==> RefsAt(s, f, q, n)
  }

  ghost predicate Inv(s: Files) { Shape(s) && Counted(s, 0, 0) }

  lemma NothingLeftOut(s: Files, f: nat, q: nat)
    requires Shape(s)
    ensures NamesBut(s, f, q, 0) == Names(s, f)
  {
  }

  /** A count is at least the number of descriptors, by what was lost; an entry with
      count 0 is named by no live descriptor. */
  lemma CountCovers(s: Files, f: nat)
    requires Inv(s) && f < MAXFILE
    ensures s.refs[f] >= |Names(s, f)|
    ensures s.refs[f] == 0 ==> Names(s, f) == {}
  {
    assert RefsAt(s, f, 0, 0);
  }

  // ------------------------------------------------------------------- open

  /** sys_open and sys_opencons install file f at descriptor 0: `fd = allocfd() < 0`
      is 0 whenever a descriptor is free.  What was there is lost. */
  ghost function InstallF(s: Files, p: nat, f: nat): Files
    requires Shape(s) && p in s.live && f < MAXFILE
  {
    var was := s.tables[p][0];
    Files(s.tables[p := s.tables[p][0 := f]], s.refs[f := s.refs[f] + 1], s.live,
          if was >= 0 then s.lost[was := s.lost[was] + 1] else s.lost)
  }

  lemma InstallShape(s: Files, p: nat, f: nat)
    requires Shape(s) && p in s.live && f < MAXFILE
    ensures Shape(InstallF(s, p, f))
  {
  }

  lemma InstallNames(s: Files, p: nat, f: nat, g: nat)
    requires Inv(s) && p in s.live && f < MAXFILE && s.refs[f] == 0 && g < MAXFILE
    ensures Shape(InstallF(s, p, f))
    ensures Names(InstallF(s, p, f), g) ==
      Names(s, g) - (if s.tables[p][0] == g then {(p, 0)} else {}) + (if f == g then {(p, 0)} else {})
  {
    InstallShape(s, p, f);
  }

  lemma InstallInv(s: Files, p: nat, f: nat)
    requires Inv(s) && p in s.live && f < MAXFILE && s.refs[f] == 0
    ensures Inv(InstallF(s, p, f))
  {
    var t := InstallF(s, p, f);
    InstallShape(s, p, f);
    forall g | 0 <= g < MAXFILE ensures RefsAt(t, g, 0, 0) { InstallRefs(s, p, f, g); }
  }

  lemma InstallRefs(s: Files, p: nat, f: nat, g: nat)
    requires Inv(s) && p in s.live && f < MAXFILE && s.refs[f] == 0 && g < MAXFILE
    ensures Shape(InstallF(s, p, f)) && RefsAt(InstallF(s, p, f), g, 0, 0)
  {
    hide Counted, NamesBut;
    RefsHere(s, g);
    CountCovers(s, f);
    InstallNames(s, p, f, g);
    FirstNames(s, p, g);
    var was := if s.tables[p][0] == g then {(p, 0)} else {};
    assert |Names(s, g) - was| == |Names(s, g)| - |was|;
  }

  lemma RefsHere(s: Files, g: nat)
    requires Inv(s) && g < MAXFILE
    ensures s.refs[g] == |Names(s, g)| + s.lost[g]
  {
    assert RefsAt(s, g, 0, 0);
  }

  lemma FirstNames(s: Files, p: nat, g: nat)
    requires Shape(s) && p in s.live && g < MAXFILE
    ensures (p, 0) in Names(s, g) <==> s.tables[p][0] == g
  {
  }

  // ------------------------------------------------------------------- fork

  /** The child's descriptor table after the first n descriptors of the parent. */
  ghost function CopyF(s: Files, p: nat, c: nat, n: nat): (t: Files)
    requires Shape(s) && p < MAXPROC && c < MAXPROC && p != c && n <= 32
    ensures Shape(t) && t.live == s.live + {c} && t.tables[p] == s.tables[p] && t.lost == s.lost
    ensures forall d :: n <= d < 32 ==> t.tables[c][d] == -1
    ensures forall d :: 0 <= d < n ==> t.tables[c][d] == s.tables[p][d]
  {
    if n == 0 then
      s.(tables := s.tables[c := NoFiles()], live := s.live + {c})
    else
      var t := CopyF(s, p, c, n - 1);
      var f := t.tables[p][n - 1];
      if f == -1 then t
      else t.(tables := t.tables[c := t.tables[c][n - 1 := f]], refs := t.refs[f := t.refs[f] + 1])
  }

  lemma CopyNames(t: Files, u: Files, c: nat, d: nat, f: nat, g: nat)
    requires Shape(t) && Shape(u) && c in t.live && d < 32 && t.tables[c][d] == -1 && f < MAXFILE && g < MAXFILE
    requires u.live == t.live && u.tables == t.tables[c := t.tables[c][d := f]]
    ensures Names(u, g) == Names(t, g) + (if g == f then {(c, d)} else {})
    ensures (c, d) !in Names(t, g)
  {
  }

  lemma {:induction false} CopyInv(s: Files, p: nat, c: nat, n: nat)
    requires Inv(s) && p < MAXPROC && c < MAXPROC && p != c && c !in s.live && n <= 32
    ensures Inv(CopyF(s, p, c, n))
  {
    var u := CopyF(s, p, c, n);
    if n == 0 {
      forall g | 0 <= g < MAXFILE ensures RefsAt(u, g, 0, 0) {
        assert RefsAt(s, g, 0, 0);
        assert Names(u, g) == Names(s, g);
      }
    } else {
      CopyInv(s, p, c, n - 1);
      var t := CopyF(s, p, c, n - 1);
      var f := t.tables[p][n - 1];
      forall g | 0 <= g < MAXFILE ensures RefsAt(u, g, 0, 0) {
        assert RefsAt(t, g, 0, 0);
        if f != -1 { CopyNames(t, u, c, n - 1, f, g); }
      }
    }
  }

  // ------------------------------------------------------------------- exit

  /** destroy_proc after n descriptors: counts go down, and only a pointer whose
      count reached 0 is cleared. */
  ghost function ReleaseF(s: Files, p: nat, n: nat): (t: Files)
    requires Shape(s) && p < MAXPROC && n <= 32
    ensures Shape(t) && t.live == s.live && t.lost == s.lost
    ensures forall q :: 0 <= q < MAXPROC && q != p ==> t.tables[q] == s.tables[q]
    ensures forall d :: n <= d < 32 ==> t.tables[p][d] == s.tables[p][d]
  {
    if n == 0 then s else
      var t := ReleaseF(s, p, n - 1);
      var f := t.tables[p][n - 1];
      if f == -1 then t
      else t.(refs := t.refs[f := t.refs[f] - 1],
              tables := if t.refs[f] == 1 then t.tables[p := t.tables[p][n - 1 := -1]] else t.tables)
  }

  lemma ReleaseNames(t: Files, u: Files, p: nat, n: nat, g: nat)
    requires Shape(t) && Shape(u) && p in t.live && n < 32 && u.live == t.live
    requires u.tables == t.tables || u.tables == t.tables[p := t.tables[p][n := -1]]
    ensures NamesBut(u, g, p, n + 1) == NamesBut(t, g, p, n) - {(p, n)}
    ensures (p, n) in NamesBut(t, g, p, n) <==> t.tables[p][n] == g
  {
  }

  lemma {:induction false} ReleaseCounted(s: Files, p: nat, n: nat)
    requires Inv(s) && p in s.live && n <= 32
    ensures Counted(ReleaseF(s, p, n), p, n)
  {
    var u := ReleaseF(s, p, n);
    if n == 0 {
      forall g | 0 <= g < MAXFILE ensures RefsAt(u, g, p, 0) {
        assert RefsAt(s, g, 0, 0);
        NothingLeftOut(s, g, p);
      }
    } else {
      ReleaseCounted(s, p, n - 1);
      var t, m := ReleaseF(s, p, n - 1), n - 1;
      forall g | 0 <= g < MAXFILE ensures RefsAt(u, g, p, n) {
        assert RefsAt(t, g, p, m);
        ReleaseNames(t, u, p, m, g);
      }
    }
  }

  ghost function ExitF(s: Files, p: nat): Files
    requires Shape(s) && p < MAXPROC
  {
    var t := ReleaseF(s, p, 32);
    t.(live := t.live - {p})
  }

  lemma ExitInv(s: Files, p: nat)
    requires Inv(s) && p in s.live
    ensures Inv(ExitF(s, p))
  {
    var t, u := ReleaseF(s, p, 32), ExitF(s, p);
    ReleaseCounted(s, p, 32);
    forall g | 0 <= g < MAXFILE ensures RefsAt(u, g, 0, 0) {
      assert RefsAt(t, g, p, 32);
      assert Names(u, g) == NamesBut(t, g, p, 32);
    }
  }

  // ------------------------------------------------------------------- runs

  /** Open (of a name that exists or not), fork into a free slot, and exit. */
  datatype Op = Open(p: nat, found: bool) | OpenCons(p: nat) | Fork(p: nat, c: nat) | Exit(p: nat)

  ghost predicate Allowed(s: Files, op: Op) {
    match op
    case Open(p, _) => p in s.live
    case OpenCons(p) => p in s.live
    case Fork(p, c) => p in s.live && c < MAXPROC && c !in s.live
    case Exit(p) => p in s.live
  }

  ghost function Unused(refs: seq<int>, f: nat): (r: int)
    requires f <= |refs|
    ensures r == -1 || f <= r < |refs|
    ensures r != -1 ==> refs[r] == 0
    ensures forall g :: f <= g < |refs| && (r == -1 || g < r) ==> refs[g] != 0
    decreases |refs| - f
  {
    if f == |refs| then -1 else if refs[f] == 0 then f else Unused(refs, f + 1)
  }

  /** A descriptor is free, and so is a file entry: then open takes that entry. */
  ghost predicate Installs(s: Files, p: nat)
    requires Shape(s) && p < MAXPROC
  {
    -1 in s.tables[p] && Unused(s.refs, 0) != -1
  }

  ghost function Step(s: Files, op: Op): Files
    requires Shape(s) && Allowed(s, op)
  {
    match op
    case Open(p, found) => if Installs(s, p) && found then InstallF(s, p, Unused(s.refs, 0)) else s
    case OpenCons(p) => if Installs(s, p) then InstallF(s, p, Unused(s.refs, 0)) else s
    case Fork(p, c) => CopyF(s, p, c, 32)
    case Exit(p) => ExitF(s, p)
  }

  lemma StepInv(s: Files, op: Op)
    requires Inv(s) && Allowed(s, op)
    ensures Inv(Step(s, op))
  {
    match op {
      case Open(p, found) => if Installs(s, p) && found { InstallInv(s, p, Unused(s.refs, 0)); }
      case OpenCons(p) => if Installs(s, p) { InstallInv(s, p, Unused(s.refs, 0)); }
      case Fork(p, c) => CopyInv(s, p, c, 32);
      case Exit(p) => ExitInv(s, p);
    }
  }

  ghost predicate AllAllowed(s: Files, ops: seq<Op>)
    requires Inv(s)
    decreases |ops|
  {
    ops != [] ==> Allowed(s, ops[0]) && (StepInv(s, ops[0]); AllAllowed(Step(s, ops[0]), ops[1..]))
  }

  ghost function Run(s: Files, ops: seq<Op>): (t: Files)
    requires Inv(s) && AllAllowed(s, ops)
    ensures Inv(t)
    decreases |ops|
  {
    if ops == [] then s else (StepInv(s, ops[0]); Run(Step(s, ops[0]), ops[1..]))
  }

  /** Over every run of opens, forks and exits: an entry that allocfile would hand
      out is named by no live descriptor, and every count covers its descriptors. */
  lemma NeverRecycled(s: Files, ops: seq<Op>, f: nat)
    requires Inv(s) && AllAllowed(s, ops) && f < MAXFILE
    ensures var t := Run(s, ops);
      && t.refs[f] >= |Names(t, f)|
      && (Unused(t.refs, 0) == f ==> Names(t, f) == {})
  {
    CountCovers(Run(s, ops), f);
  }

  /** An open that takes a file entry while descriptor 0 of the process is in use. */
  ghost predicate Overwrites(s: Files, op: Op)
    requires Shape(s) && Allowed(s, op)
  {
    match op
    case Open(p, found) => found && Installs(s, p) && s.tables[p][0] != -1
    case OpenCons(p) => Installs(s, p) && s.tables[p][0] != -1
    case Fork(_, _) => false
    case Exit(_) => false
  }

  /** No open of the run overwrites a descriptor. */
  ghost predicate NeverOverwrites(s: Files, ops: seq<Op>)
    requires Inv(s) && AllAllowed(s, ops)
    decreases |ops|
  {
    ops != [] ==> !Overwrites(s, ops[0]) && (StepInv(s, ops[0]); NeverOverwrites(Step(s, ops[0]), ops[1..]))
  }

  ghost predicate ExactAt(s: Files, f: nat)
    requires Shape(s) && f < MAXFILE
  {
    s.refs[f] == |Names(s, f)|
  }

  /** Every count equals the number of live descriptors that name the entry. */
  ghost predicate AllExact(s: Files)
    requires Shape(s)
  {
    forall f {:trigger ExactAt(s, f)} :: 0 <= f < MAXFILE ==> ExactAt(s, f)
  }

  lemma ExactIsUnlost(s: Files)
    requires Inv(s)
    ensures AllExact(s) <==> forall f :: 0 <= f < MAXFILE ==> s.lost[f] == 0
  {
    forall f | 0 <= f < MAXFILE ensures ExactAt(s, f) <==> s.lost[f] == 0 { assert RefsAt(s, f, 0, 0); }
  }

  /** One step keeps all counts exact if and only if it does not overwrite. */
  lemma StepExact(s: Files, op: Op)
    requires Inv(s) && Allowed(s, op)
    ensures Inv(Step(s, op)) && (AllExact(Step(s, op)) <==> AllExact(s) && !Overwrites(s, op))
  {
    hide CopyF, ReleaseF, Counted, AllExact;
    StepInv(s, op);
    ExactIsUnlost(s);
    ExactIsUnlost(Step(s, op));
    if Overwrites(s, op) { assert Step(s, op).lost[s.tables[op.p][0]] > 0; }
  }

  /** Over every run: all counts are exact afterwards if and only if they were before
      and no open was made by a process whose descriptor 0 was in use. */
  lemma {:induction false} ExactIff(s: Files, ops: seq<Op>)
    requires Inv(s) && AllAllowed(s, ops)
    ensures AllExact(Run(s, ops)) <==> AllExact(s) && NeverOverwrites(s, ops)
    decreases |ops|
  {
    if ops != [] {
      StepExact(s, ops[0]);
      ExactIff(Step(s, ops[0]), ops[1..]);
    }
  }

  lemma {:induction false} LostStays(s: Files, ops: seq<Op>, f: nat)
    requires Inv(s) && AllAllowed(s, ops) && f < MAXFILE && s.lost[f] > 0
    ensures Run(s, ops).lost[f] > 0
    decreases |ops|
  {
    if ops != [] {
      StepInv(s, ops[0]);
      LostStays(Step(s, ops[0]), ops[1..], f);
    }
  }

  /** A file whose count once exceeds its descriptors is never free again, whatever
      happens. */
  lemma LostForever(s: Files, ops: seq<Op>, f: nat)
    requires Inv(s) && AllAllowed(s, ops) && f < MAXFILE && s.refs[f] > |Names(s, f)|
    ensures var t := Run(s, ops);
      t.refs[f] > |Names(t, f)| && Unused(t.refs, 0) != f
  {
    assert RefsAt(s, f, 0, 0);
    LostStays(s, ops, f);
    assert RefsAt(Run(s, ops), f, 0, 0);
  }

  /** Entry f, the first one without references, is now the file of descriptor 0 of process p
      and counts one reference; every other descriptor and count is as it was. */
  ghost predicate OpenedAt(tables: seq<Table>, refs: seq<int>, p: nat, f: nat, tables': seq<Table>, refs': seq<int>)
    requires p < |tables|
  {
    && f < |refs| && refs[f] == 0 && (forall g :: 0 <= g < f ==> refs[g] != 0)
    && |tables'| == |tables| && |refs'| == |refs| && tables'[p][0] == f && refs'[f] == 1
    && (forall d :: 0 < d < 32 ==> tables'[p][d] == tables[p][d])
    && (forall q :: 0 <= q < |tables| && q != p ==> tables'[q] == tables[q])
    && (forall g :: 0 <= g < |refs| && g != f ==> refs'[g] == refs[g])
  }

  /** What an open does to the two arrays: it succeeds and installs the first unused entry,
      or fails and changes nothing. */
  ghost predicate Opened(tables: seq<Table>, refs: seq<int>, p: nat, r: int, tables': seq<Table>, refs': seq<int>)
    requires p < |tables|
  {
    if r == 0 then exists f: nat :: OpenedAt(tables, refs, p, f, tables', refs')
    else tables' == tables && refs' == refs
  }

  /** The file table and the descriptor tables of all process slots, in place. */
  class FileTable {
    const fdtable: array<Table>
    const refcount: array<int>
    ghost var live: set<nat>
    ghost var lost: seq<nat>

    ghost function S(): Files
      reads this, fdtable, refcount
    {
      Files(fdtable[..], refcount[..], live, lost)
    }

    ghost predicate Valid()
      reads this, fdtable, refcount
    {
      Inv(S())
    }

    /** init_files, before the first process. */
    constructor ()
      ensures Valid() && fresh(fdtable) && fresh(refcount) && live == {}
      ensures forall f :: 0 <= f < MAXFILE ==> refcount[f] == 0 && lost[f] == 0
    {
      fdtable := new Table[MAXPROC](i => NoFiles());
      refcount := new int[MAXFILE](i => 0);
      live, lost := {}, seq(MAXFILE, i => 0);
      new;
      forall g | 0 <= g < MAXFILE ensures RefsAt(S(), g, 0, 0) { assert Names(S(), g) == {}; }
    }

    /** allocfd: the first descriptor that is NULL. */
    method AllocFd(current: nat) returns (fd: int)
      requires current < fdtable.Length
      ensures fd == -1 <==> -1 !in fdtable[current]
      ensures fd != -1 ==> 0 <= fd < 32 && fdtable[current][fd] == -1 && -1 !in fdtable[current][..fd]
    {
      for i := 0 to 32
        invariant -1 !in fdtable[current][..i]
      {
        if fdtable[current][i] == -1 { return i; }
        assert fdtable[current][..i + 1] == fdtable[current][..i] + [fdtable[current][i]];
      }
      assert fdtable[current][..32] == fdtable[current];
      return -1;
    }

    /** allocfile: the first entry without references; -1 is NULL. */
    method AllocFile() returns (f: int)
      requires Valid()
      ensures f == Unused(refcount[..], 0)
      ensures f != -1 ==> 0 <= f < MAXFILE && Names(S(), f) == {}
    {
      for i := 0 to refcount.Length
        invariant Unused(refcount[..], 0) == Unused(refcount[..], i)
      {
        if refcount[i] == 0 {
          CountCovers(S(), i);
          return i;
        }
      }
      return -1;
    }

    /** sys_open; `found` is what file_open says of the name.  The comparison binds
        tighter than the assignment, so fd is 0, or 1 if no descriptor is free. */
    method SysOpen(current: nat, found: bool) returns (r: int)
      requires Valid() && current in live
      modifies this`lost, fdtable, refcount
      ensures Valid() && S() == Step(old(S()), Open(current, found))
      ensures Opened(old(fdtable[..]), old(refcount[..]), current, r, fdtable[..], refcount[..])
      ensures r == if -1 !in old(fdtable[current]) then 1
                   else if Unused(old(refcount[..]), 0) == -1 then -1
                   else if !found then 1 else 0
    {
      StepInv(S(), Open(current, found));
      var a := AllocFd(current);
      var fd := if a < 0 then 1 else 0;
      if fd != 0 { return fd; }
      var pfile := AllocFile();
      if pfile == -1 { return -1; }
      r := if !found then 1 else 0;
      if r != 0 { return; }
      Install(current, fd, pfile);
      assert OpenedAt(old(fdtable[..]), old(refcount[..]), current, pfile, fdtable[..], refcount[..]);
      return fd;
    }

    /** sys_opencons */
    method SysOpenCons(current: nat) returns (r: int)
      requires Valid() && current in live
      modifies this`lost, fdtable, refcount
      ensures Valid() && S() == Step(old(S()), OpenCons(current))
      ensures Opened(old(fdtable[..]), old(refcount[..]), current, r, fdtable[..], refcount[..])
      ensures r == if -1 !in old(fdtable[current]) then 1 else if Unused(old(refcount[..]), 0) == -1 then -1 else 0
    {
      StepInv(S(), OpenCons(current));
      var a := AllocFd(current);
      var fd := if a < 0 then 1 else 0;
      if fd != 0 { return fd; }
      var pcons := AllocFile();
      if pcons == -1 { return -1; }
      Install(current, fd, pcons);
      assert OpenedAt(old(fdtable[..]), old(refcount[..]), current, pcons, fdtable[..], refcount[..]);
      return fd;
    }

    /** refcount++; current->fdtable[fd] = file */
    method Install(current: nat, fd: nat, f: nat)
      requires Valid() && current in live && fd == 0 && f < MAXFILE
      modifies this`lost, fdtable, refcount
      ensures S() == InstallF(old(S()), current, f)
    {
      ghost var s := S();
      ghost var was := fdtable[current][fd];
      lost := if was >= 0 then lost[was := lost[was] + 1] else lost;
      refcount[f] := refcount[f] + 1;
      fdtable[current] := fdtable[current][fd := f];
      assert S() == InstallF(s, current, f);
    }

    /** fork's part: the cleared slot's table becomes a copy of the parent's. */
    method CopyFiles(current: nat, p: nat)
      requires Valid() && current in live && p < MAXPROC && p !in live
      modifies this`live, fdtable, refcount
      ensures Valid() && S() == Step(old(S()), Fork(current, p))
    {
      ghost var s := S();
      StepInv(s, Fork(current, p));
      fdtable[p] := NoFiles();
      live := live + {p};
      for i := 0 to 32
        invariant S() == CopyF(s, current, p, i)
      {
        if fdtable[current][i] != -1 {
          var f := fdtable[current][i];
          fdtable[p] := fdtable[p][i := f];
          refcount[f] := refcount[f] + 1;
        }
        assert S() == CopyF(s, current, p, i + 1);
      }
    }

    /** destroy_proc's part. */
    method ReleaseFiles(p: nat)
      requires Valid() && p in live
      modifies this`live, fdtable, refcount
      ensures Valid() && S() == Step(old(S()), Exit(p))
    {
      ghost var s := S();
      StepInv(s, Exit(p));
      for i := 0 to 32
        invariant S() == ReleaseF(s, p, i)
      {
        if fdtable[p][i] != -1 {
          var f := fdtable[p][i];
          refcount[f] := refcount[f] - 1;
          if refcount[f] == 0 { fdtable[p] := fdtable[p][i := -1]; }
        }
        assert S() == ReleaseF(s, p, i + 1);
      }
      live := live - {p};
      assert S() == ExitF(s, p);
    }
  }
}
