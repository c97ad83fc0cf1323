/** exec and the creation of a process, seen from the eager-copy machine. */
module ExecSteps {
  import opened Limits
  import opened Words
  import opened Vm
  import opened PageTable
  import opened AddressSpace
  import opened Teardown
  import opened UserPages
  import opened System
  import opened ExecSpace
  import opened Steps

  lemma ExecSpaces(y: Sys, t: Vm, pages: map<nat, Frame>)
    requires Valid(y) && y.current != -1 && Mapped(y.vm, t, y.vm.cr3, pages)
    ensures SpacesOk(WithWindow(y, t)) && UserOk(WithWindow(y, t).vm) && CpuOk(WithWindow(y, t))
  {
    hide UserOk, Inv, PageAt;
    var z, r := WithWindow(y, t), y.vm.cr3;
    CurrentSpace(y);
    TlbOnly(t, z.vm);
    forall p | p in z.pgdir ensures Space(z.vm, z.pgdir[p]) {
      assert ForeignAt(y.vm, t, r, K4(z.pgdir[p]));
    }
    forall k | k in z.vm.ent ensures SpaceOwned(z, k) {
      assert ForeignAt(y.vm, t, r, k);
      if k.root != r {
        assert SpaceOwned(y, k);
        var p :| p in y.pgdir && y.pgdir[p] == k.root;
        assert z.pgdir[p] == k.root;
      } else {
        assert z.pgdir[y.current] == k.root;
      }
    }
  }

  /** Views that differ in the pages of one process. */
  lemma EagerOfReplaced(y: Sys, z: Sys, whole: map<nat, Frame>)
    requires Inv(y.vm) && Inv(z.vm) && z.pgdir == y.pgdir && z.slots == y.slots && z.current == y.current
    requires 0 <= y.current && y.current in y.pgdir
    requires forall p {:trigger PagesOf(z.vm, y.pgdir[p])} :: p in y.pgdir ==>
      PagesOf(z.vm, y.pgdir[p]) == if p == y.current then whole else PagesOf(y.vm, y.pgdir[p])
    ensures EagerOf(z) == EagerOf(y).(pages := EagerOf(y).pages[y.current := whole])
  {
    hide Inv, PagesOf;
    assert EagerOf(z).pages == EagerOf(y).pages[y.current := whole];
  }

  lemma WindowRefines(y: Sys, t: Vm, pages: map<nat, Frame>)
    requires Valid(y) && y.current != -1 && Mapped(y.vm, t, y.vm.cr3, pages)
    ensures Valid(WithWindow(y, t))
    ensures EagerOf(WithWindow(y, t)) == EagerOf(y).(pages := EagerOf(y).pages[y.current := Whole(pages)])
  {
    CurrentSpace(y);
    ExecSpaces(y, t, pages);
    TlbOnly(t, WithWindow(y, t).vm);
    hide UserOk, Inv, SpacesOk, SlotsOk, CpuOk, PagesOf, Mapped, SamePages, EagerOf, Whole;
    forall p | p in y.pgdir
      ensures PagesOf(WithWindow(y, t).vm, y.pgdir[p]) ==
        if p == y.current then Whole(pages) else PagesOf(y.vm, y.pgdir[p])
    {
      ExecPages(y, t, pages, p);
    }
    EagerOfReplaced(y, WithWindow(y, t), Whole(pages));
  }

  lemma ExecPages(y: Sys, t: Vm, pages: map<nat, Frame>, p: nat)
    requires Valid(y) && y.current != -1 && Mapped(y.vm, t, y.vm.cr3, pages) && p in y.pgdir
    requires Inv(WithWindow(y, t).vm) && SamePages(t, WithWindow(y, t).vm) && Inv(y.vm)
    ensures PagesOf(WithWindow(y, t).vm, y.pgdir[p]) ==
      if p == y.current then Whole(pages) else PagesOf(y.vm, y.pgdir[p])
  {
    var z, r, q := WithWindow(y, t), y.vm.cr3, y.pgdir[p];
    CurrentSpace(y);
    hide UserOk, Inv;
    forall v | InWindow(v)
      ensures PageAt(z.vm, K0(q, v)) ==
        if p == y.current then (if v in pages then pages[v] else ZeroFrame()) else PageAt(y.vm, K0(q, v))
    {
      assert PageAt(z.vm, K0(q, v)) == PageAt(t, K0(q, v));
      if p == y.current { assert PageIs(t, r, pages, v); } else { assert ForeignAt(y.vm, t, r, K0(q, v)); }
    }
  }

  // ------------------------------------------------------- a new process

  lemma SpawnFacts(y: Sys, t: Vm, pages: map<nat, Frame>)
    requires Inv(y.vm) && y.vm.free != [] && Mapped(NewSpaceF(y.vm), t, y.vm.free[0], pages)
    ensures Inv(t) && K4(y.vm.free[0]) in t.ent
    ensures forall k :: k in y.vm.ent ==> k.root != y.vm.free[0]
  {
  }

  lemma SpawnSpaces(y: Sys, t: Vm, pages: map<nat, Frame>)
    requires Valid(y) && y.slots != [] && y.vm.free != [] && y.slots[0] !in y.pgdir && y.slots[0] < MAXPROC
    requires Mapped(NewSpaceF(y.vm), t, y.vm.free[0], pages)
    ensures SpacesOk(WithProcess(y, t))
  {
    hide PageOk, PageAt, NewSpaceF, DataKept, FreeExact, RolesOk, CountsExact,
      Closed, TablesStored, KernelShared;
    var z, c, a := WithProcess(y, t), y.vm.free[0], NewSpaceF(y.vm);
    SpawnFacts(y, t, pages);
    forall p | p in z.pgdir
      ensures p < MAXPROC && Space(z.vm, z.pgdir[p])
      ensures p in y.pgdir && p != y.slots[0] ==> y.pgdir[p] != c
    {
      if p != y.slots[0] {
        assert K4(y.pgdir[p]) in y.vm.ent;
        assert ForeignAt(a, t, c, K4(y.pgdir[p]));
      }
    }
    forall k | k in z.vm.ent ensures SpaceOwned(z, k) {
      assert ForeignAt(a, t, c, k);
      if k.root != c {
        assert SpaceOwned(y, k);
        var p :| p in y.pgdir && y.pgdir[p] == k.root;
        assert z.pgdir[p] == k.root;
      } else {
        assert z.pgdir[y.slots[0]] == k.root;
      }
    }
  }

  lemma SpawnValid(y: Sys, t: Vm, pages: map<nat, Frame>)
    requires Valid(y) && y.slots != [] && y.vm.free != []
    requires Mapped(NewSpaceF(y.vm), t, y.vm.free[0], pages)
    ensures Valid(WithProcess(y, t)) && y.slots[0] !in y.pgdir && Inv(y.vm)
    ensures SamePages(t, WithProcess(y, t).vm)
  {
    hide SpacesOk, SlotsOk, PageAt, NewSpaceF, Inv, SamePages, PageOk, Settled;
    FirstSlot(y);
    SpawnSpaces(y, t, pages);
    SlotTaken(y.pgdir, y.slots, y.vm.free[0]);
    TlbOnly(t, WithProcess(y, t).vm);
  }

  lemma ProcessRefines(y: Sys, t: Vm, pages: map<nat, Frame>)
    requires Valid(y) && y.slots != [] && y.vm.free != []
    requires Mapped(NewSpaceF(y.vm), t, y.vm.free[0], pages)
    ensures Valid(WithProcess(y, t)) && y.slots[0] !in y.pgdir
    ensures EagerOf(WithProcess(y, t)).pages == EagerOf(y).pages[y.slots[0] := Whole(pages)]
  {
    hide Mapped, PagesOf, Whole, SpacesOk, SlotsOk, CpuOk, Inv, NewSpaceF, SamePages, PageOk, Settled;
    SpawnValid(y, t, pages);
    var z := WithProcess(y, t);
    forall p | p in z.pgdir
      ensures PagesOf(z.vm, z.pgdir[p]) == if p == y.slots[0] then Whole(pages) else PagesOf(y.vm, y.pgdir[p])
    {
      SpawnPages(y, t, pages, p);
    }
  }

  lemma SpawnPages(y: Sys, t: Vm, pages: map<nat, Frame>, p: nat)
    requires Valid(y) && y.slots != [] && y.vm.free != [] && y.slots[0] !in y.pgdir
    requires Mapped(NewSpaceF(y.vm), t, y.vm.free[0], pages) && p in WithProcess(y, t).pgdir
    requires Inv(WithProcess(y, t).vm) && SamePages(t, WithProcess(y, t).vm)
    ensures PagesOf(WithProcess(y, t).vm, WithProcess(y, t).pgdir[p]) ==
      if p == y.slots[0] then Whole(pages) else PagesOf(y.vm, y.pgdir[p])
  {
    var z, c, a := WithProcess(y, t), y.vm.free[0], NewSpaceF(y.vm);
    var q := z.pgdir[p];
    if p != y.slots[0] { assert K4(q) in y.vm.ent; }
    hide UserOk, NewSpaceF;
    forall v | InWindow(v)
      ensures PageAt(z.vm, K0(q, v)) ==
        if p == y.slots[0] then (if v in pages then pages[v] else ZeroFrame()) else PageAt(y.vm, K0(q, v))
    {
      assert PageAt(z.vm, K0(q, v)) == PageAt(t, K0(q, v));
      if p == y.slots[0] {
        assert PageIs(t, c, pages, v);
      } else {
        assert ForeignAt(a, t, c, K0(q, v));
        PageSame(y.vm, a, K0(q, v));
      }
    }
  }

  // ----------------------------------------------------------------- as steps

  lemma PlacedMapped(s: Vm, t: Vm, r: nat, pages: map<nat, Frame>, n: nat)
    requires Placed(s, t, r, pages, n)
    ensures Mapped(s, t, r, pages)
  {
  }

  /** The window of the running process holds exactly the new pages. */
  lemma ExecMapped(y: Sys, dir: Frame, header: Frame, plan: seq<Mapping>)
    requires Valid(y) && y.current != -1 && ExecEnabled(y, plan)
    ensures UserOk(y.vm) && Openable(y.vm) && Plannable(HeadF(y.vm, dir, header), y.vm.cr3, plan)
    ensures Mapped(y.vm, LoadF(HeadF(y.vm, dir, header), y.vm.cr3, plan), y.vm.cr3, PagesIn(plan))
  {
    hide Inv, UserOk, Mapped, Placed, HeadF, Plannable, LoadF, ExecEnabled, Openable, TableKeys;
    ExecReady(y, plan);
    var u, r := HeadF(y.vm, dir, header), y.vm.cr3;
    HeadWindow(y.vm, dir, header);
    PlacedMapped(u, LoadF(u, r, plan), r, PagesIn(plan), KeptIn(plan));
    MappedAgain(y.vm, u, LoadF(u, r, plan), r, PagesIn(plan));
  }

  /** exec keeps the system in order and replaces exactly the window of the process
      that calls it: every other process reads what it read before. */
  lemma ExecRefines(y: Sys, dir: Frame, header: Frame, plan: seq<Mapping>)
    requires Valid(y) && Enabled(y, Exec(dir, header, plan))
    ensures Valid(ExecStep(y, dir, header, plan)) && EagerValid(EagerOf(y))
    ensures EagerEnabled(EagerOf(y), Exec(dir, header, plan))
    ensures EagerOf(ExecStep(y, dir, header, plan)) == EagerStep(EagerOf(y), Exec(dir, header, plan))
  {
    hide Inv, Mapped, HeadF, Clearable, Plannable, LoadF, WithWindow, EagerOf, Whole, Valid, EagerValid, PagesIn, Need,
          ExecEnabled, UserOk, Openable;
    EagerOfEnabled(y, Exec(dir, header, plan));
    EagerOfParts(y);
    ExecMapped(y, dir, header, plan);
    WindowRefines(y, LoadF(HeadF(y.vm, dir, header), y.vm.cr3, plan), PagesIn(plan));
  }

  /** exec of a file without the ELF magic empties that window. */
  lemma RefuseRefines(y: Sys, dir: Frame, header: Frame)
    requires Valid(y) && Enabled(y, Refuse(dir, header))
    ensures Valid(RefuseStep(y, dir, header)) && EagerValid(EagerOf(y))
    ensures EagerEnabled(EagerOf(y), Refuse(dir, header))
    ensures EagerOf(RefuseStep(y, dir, header)) == EagerStep(EagerOf(y), Refuse(dir, header))
  {
    hide Inv, Mapped, HeadF, WithWindow, EagerOf, Whole, Valid, EagerValid, ExecEnabled, UserOk, Openable, Coherent;
    EagerOfEnabled(y, Refuse(dir, header));
    EagerOfParts(y);
    CurrentSpace(y);
    HeadReady(y);
    HeadWindow(y.vm, dir, header);
    HeadTlb(y.vm, dir, header);
    WindowRefines(y, HeadF(y.vm, dir, header), map[]);
    NothingLost(y, HeadF(y.vm, dir, header));
  }

  lemma NothingLost(y: Sys, t: Vm)
    requires t.tlb == map[]
    ensures WithWindow(y, t) == y.(vm := t)
  {
  }

  /** The 2 MB regions of the pages vs that have no PT in address space r. */
  ghost function NewRegions(ent: map<Key, nat>, r: nat, vs: set<nat>): set<nat> {
    set v | v in vs && K1(r, v) !in ent :: Up(v)
  }

  /** Where PDPT and PD are there, new pages need PTs at most. */
  lemma NeedsRegions(ent: map<Key, nat>, r: nat, vs: set<nat>)
    requires Key(r, 2, 2) in ent && Key(r, 3, 0) in ent && forall v :: v in vs ==> InWindow(v)
    ensures |NewTables(ent, r, vs)| == |NewRegions(ent, r, vs)|
  {
    var a := set p | p in NewRegions(ent, r, vs) :: Key(r, 1, p);
    KeysOfRegions(r, NewRegions(ent, r, vs));
    hide Up, NewTables, NewRegions;
    forall k ensures k in NewTables(ent, r, vs) <==> k in a { NewTableIn(ent, r, vs, k); }
    assert NewTables(ent, r, vs) == a;
  }

  lemma NewTableIn(ent: map<Key, nat>, r: nat, vs: set<nat>, k: Key)
    requires Key(r, 2, 2) in ent && Key(r, 3, 0) in ent && forall v :: v in vs ==> InWindow(v)
    ensures k in NewTables(ent, r, vs) <==> k.root == r && k.level == 1 && k.p in NewRegions(ent, r, vs)
  {
    hide Up;
    if k in NewTables(ent, r, vs) {
      var v :| v in vs && (k == K1(r, v) || k == K2(r, v) || k == K3(r, v));
      WindowDigits(v);
      assert v in vs && K1(r, v) !in ent;
    }
    if k.root == r && k.level == 1 && k.p in NewRegions(ent, r, vs) {
      var v :| v in vs && K1(r, v) !in ent && k.p == Up(v);
      assert k == K1(r, v);
    }
  }

  lemma PlanInWindow(plan: seq<Mapping>)
    requires Fits(plan)
    ensures forall v :: v in PagesIn(plan) ==> InWindow(v)
  {
    if plan != [] { PlanInWindow(plan[..|plan| - 1]); }
  }

  /** The exact cost of exec, counted from the cleared window: a frame for the directory
      block, one for the first block of the file, one for each block read after that, one
      for each page, the stack's included, and one for each table that was missing; that
      is for each 2 MB region without a PT, if the process has its PDPT and its PD. */
  lemma ExecCost(y: Sys, dir: Frame, header: Frame, plan: seq<Mapping>)
    requires Valid(y) && y.current != -1 && ExecEnabled(y, plan)
    ensures var pages, ent, r := PagesIn(plan).Keys, y.vm.ent, y.vm.cr3;
      && |ClearF(y.vm, r).free| ==
           |ExecStep(y, dir, header, plan).vm.free| + 2 + KeptIn(plan) + |pages| + |NewTables(ent, r, pages)|
      && (Key(r, 2, 2) in ent && Key(r, 3, 0) in ent ==> |NewTables(ent, r, pages)| == |NewRegions(ent, r, pages)|)
  {
    hide Inv, UserOk, Mapped, ClearF, HeadF, LoadF, NewTables, NewRegions, SpacesOk, SlotsOk, TableKeys, PathTables;
    var pages, r, u := PagesIn(plan).Keys, y.vm.cr3, HeadF(y.vm, dir, header);
    ExecReady(y, plan);
    HeadWindow(y.vm, dir, header);
    PlanInWindow(plan);
    if Key(r, 2, 2) in y.vm.ent && Key(r, 3, 0) in y.vm.ent { NeedsRegions(y.vm.ent, r, pages); }
    NeedSame(u.ent, y.vm.ent, r, pages);
  }

  /** The PTs of the 2 MB regions ps. */
  ghost function PtKeys(r: nat, ps: set<nat>): set<Key> { set p | p in ps :: Key(r, 1, p) }

  /** The tables of a new address space: PDPT, PD and a PT for each 2 MB region. */
  lemma FreshNeeds(ent: map<Key, nat>, r: nat, vs: set<nat>)
    requires (forall k :: k in ent ==> k.root != r) && forall v :: v in vs ==> InWindow(v)
    ensures |NewTables(ent, r, vs)| == if vs == {} then 0 else 2 + |Regions2(vs)|
  {
    KeysOfRegions(r, Regions2(vs));
    hide NewTables, Regions2;
    FreshTables(ent, r, vs);
    if vs == {} { NoRegions(); }
  }

  lemma FreshTables(ent: map<Key, nat>, r: nat, vs: set<nat>)
    requires (forall k :: k in ent ==> k.root != r) && forall v :: v in vs ==> InWindow(v)
    ensures NewTables(ent, r, vs) == PtKeys(r, Regions2(vs)) + if vs == {} then {} else {Key(r, 2, 2), Key(r, 3, 0)}
  {
    hide NewTables, Regions2;
    forall k
      ensures k in NewTables(ent, r, vs) <==>
        k in PtKeys(r, Regions2(vs)) || (vs != {} && k in {Key(r, 2, 2), Key(r, 3, 0)})
    {
      FreshTableIn(ent, r, vs, k);
    }
  }

  lemma NoRegions()
    ensures Regions2({}) == {}
  {
  }

  lemma FreshTableIn(ent: map<Key, nat>, r: nat, vs: set<nat>, k: Key)
    requires (forall k :: k in ent ==> k.root != r) && forall v :: v in vs ==> InWindow(v)
    ensures k in NewTables(ent, r, vs) <==>
      (k.root == r && k.level == 1 && k.p in Regions2(vs)) || (vs != {} && (k == Key(r, 2, 2) || k == Key(r, 3, 0)))
  {
    hide Up;
    if k in PathTables(r, vs) {
      var v :| v in vs && (k == K1(r, v) || k == K2(r, v) || k == K3(r, v));
      WindowDigits(v);
    }
    if k.root == r && k.level == 1 && k.p in Regions2(vs) {
      var v :| v in vs && k.p == Up(v);
      assert k == K1(r, v);
    }
    if vs != {} && (k == Key(r, 2, 2) || k == Key(r, 3, 0)) {
      var v :| v in vs;
      WindowDigits(v);
      assert k == K2(r, v) || k == K3(r, v);
    }
  }

  /** The 2 MB regions of the pages vs. */
  ghost function Regions2(vs: set<nat>): set<nat> { set v | v in vs :: Up(v) }

  /** The exact cost of a new process: its PML4, a frame for each page and each block
      read, and PDPT, PD and a PT for each 2 MB region. */
  lemma SpawnCost(y: Sys, plan: seq<Mapping>)
    requires Valid(y) && SpawnEnabled(y, plan)
    ensures var pages := PagesIn(plan).Keys;
      |y.vm.free| == |SpawnStep(y, plan).vm.free| + 1 + KeptIn(plan) + |pages|
                     + if pages == {} then 0 else 2 + |Regions2(pages)|
  {
    hide Inv, UserOk, Mapped, NewSpaceF, LoadF, NewTables, SpacesOk, SlotsOk, TableKeys, PathTables;
    SpawnReady(y, plan);
    PlanInWindow(plan);
    var c := y.vm.free[0];
    FreshNeeds(NewSpaceF(y.vm).ent - {K4(c)}, c, PagesIn(plan).Keys);
    NewSpaceTables(y.vm);
    NeedSame(NewSpaceF(y.vm).ent, NewSpaceF(y.vm).ent - {K4(c)}, c, PagesIn(plan).Keys);
  }

  lemma NewSpaceTables(s: Vm)
    requires Inv(s) && s.free != []
    ensures TableKeys(NewSpaceF(s).ent - {K4(s.free[0])}, s.free[0]) == TableKeys(NewSpaceF(s).ent, s.free[0])
    ensures forall k :: k in NewSpaceF(s).ent - {K4(s.free[0])} ==> k.root != s.free[0]
  {
    hide Inv, NewSpaceF;
  }

  /** A new process sees its image and zeros elsewhere; the others see no change. */
  lemma SpawnRefines(y: Sys, plan: seq<Mapping>)
    requires Valid(y) && Enabled(y, Spawn(plan))
    ensures Valid(SpawnStep(y, plan)) && EagerValid(EagerOf(y)) && EagerEnabled(EagerOf(y), Spawn(plan))
    ensures EagerOf(SpawnStep(y, plan)) == EagerStep(EagerOf(y), Spawn(plan))
  {
    hide Inv, Mapped, Placed, NewSpaceF, Plannable, LoadF, EagerOf, Whole, Valid, EagerValid, PagesIn, Need;
    EagerOfEnabled(y, Spawn(plan));
    EagerOfParts(y);
    SpawnReady(y, plan);
    var a, c := NewSpaceF(y.vm), y.vm.free[0];
    PlacedMapped(a, LoadF(a, c, plan), c, PagesIn(plan), KeptIn(plan));
    ProcessRefines(y, LoadF(a, c, plan), PagesIn(plan));
    EagerOfParts(SpawnStep(y, plan));
  }
}
