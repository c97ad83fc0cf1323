/** The running system: memory, TLB, process slots and what holds of them at every
    return to user mode; and the page fault that a user access may take. */
module System {
  import opened Limits
  import opened Words
  import opened Vm
  import opened PageTable
  import opened AddressSpace
  import opened Teardown
  import opened UserPages


  /** vm: memory, tables, TLB and cr3.  pgdir: the PML4 frame of every live
      process slot.  slots: the free process slots, head first.  current: the
      running slot, or -1 for NULL. */
  datatype Sys = Sys(vm: Vm, pgdir: map<nat, nat>, slots: seq<nat>, current: int)

  // -------------------------------------------------------------------- MMU

  /** Every cached translation agrees with the current page table. */
  ghost predicate Coherent(s: Vm) {
    forall v :: v in s.tlb ==>
      K0(s.cr3, v) in s.ent && s.tlb[v] == s.ent[K0(s.cr3, v)]
  }

  /** What the MMU uses for page v: the cached word, or else a walk of memory. */
  ghost function Lookup(s: Vm, v: nat): nat
    requires s.cr3 < |s.mem|
  {
    if v in s.tlb then s.tlb[v] else Walk(s.mem, s.cr3, v)
  }

  lemma LookupIs(s: Vm, v: nat)
    requires Inv(s) && Space(s, s.cr3) && Coherent(s) && Lower(v)
    ensures s.cr3 < |s.mem| && Lookup(s, v) == Get(s.ent, K0(s.cr3, v))
    ensures v in s.tlb ==> K0(s.cr3, v) in s.ent
  {
    WalkIsLookup(s, s.cr3, v);
  }

  /** The hardware caches the walk of a present page. */
  ghost function CacheF(s: Vm, v: nat): Vm
    requires s.cr3 < |s.mem|
  {
    if Present(Walk(s.mem, s.cr3, v)) then s.(tlb := s.tlb[v := Walk(s.mem, s.cr3, v)]) else s
  }

  /** The address space after the fault, if any, that an access to page v takes. */
  ghost function FaultF(s: Vm, v: nat, write: bool): Vm
    requires Inv(s) && Space(s, s.cr3) && Lower(v) && s.cr3 < |s.mem|
    requires Lookup(s, v) == Get(s.ent, K0(s.cr3, v)) && Settled(s)
    requires Affordable(s, v, write)
  {
    var w := Lookup(s, v);
    if !Present(w) then
      assert K0(s.cr3, v) in s.ent ==> NamedAt(s, K0(s.cr3, v));
      ZeroF(s, s.cr3, v)
    else if write && !Writable(w) then
      SettledAt(s, K0(s.cr3, v));
      CowF(s, s.cr3, v)
    else s
  }

  /** Enough frames are free for the fault that an access would take. */
  ghost predicate Affordable(s: Vm, v: nat, write: bool) {
    var k := K0(s.cr3, v);
    if k !in s.ent then |s.free| >= 1 + Missing(s.ent, s.cr3, v)
    else write && !Writable(s.ent[k]) ==> s.free != []
  }

  // ------------------------------------------------------------- invariant

  ghost predicate SpaceOwned(y: Sys, k: Key) {
    exists p :: p in y.pgdir && y.pgdir[p] == k.root
  }

  /** Live processes own the address spaces, one each. */
  ghost predicate SpacesOk(y: Sys) {
    && (forall p :: p in y.pgdir ==> p < MAXPROC && Space(y.vm, y.pgdir[p]))
    && (forall p, q :: p in y.pgdir && q in y.pgdir && y.pgdir[p] == y.pgdir[q] ==> p == q)
    && (forall k {:trigger SpaceOwned(y, k)} :: k in y.vm.ent ==> SpaceOwned(y, k))
  }

  /** The free slots are listed once each, and are exactly the slots not live. */
  ghost predicate SlotsOk(pgdir: map<nat, nat>, slots: seq<nat>) {
    && (forall i :: 0 <= i < |slots| ==> slots[i] < MAXPROC && slots[i] !in pgdir)
    && (forall i, j :: 0 <= i < j < |slots| ==> slots[i] != slots[j])
    && (forall p :: 0 <= p < MAXPROC ==> p in slots || p in pgdir)
  }

  /** While a process runs, cr3 is its PML4 and the TLB is coherent. */
  ghost predicate CpuOk(y: Sys) {
    y.current == -1
    || (0 <= y.current && y.current in y.pgdir && y.vm.cr3 == y.pgdir[y.current] && Coherent(y.vm))
  }

  /** What holds at every return to user mode. */
  ghost predicate Valid(y: Sys) {
    UserOk(y.vm) && SpacesOk(y) && SlotsOk(y.pgdir, y.slots) && CpuOk(y)
  }

  // ------------------------------------------------------------ process slots

  lemma FirstSlot(y: Sys)
    requires Valid(y) && y.slots != []
    ensures y.slots[0] < MAXPROC && y.slots[0] !in y.pgdir
  {
  }

  lemma LiveSlot(y: Sys)
    requires Valid(y) && y.current != -1
    ensures y.current < MAXPROC
  {
  }

  lemma SlotTaken(pgdir: map<nat, nat>, slots: seq<nat>, c: nat)
    requires SlotsOk(pgdir, slots) && slots != []
    ensures SlotsOk(pgdir[slots[0] := c], slots[1..])
  {
    forall p | 0 <= p < MAXPROC ensures p in slots[1..] || p in pgdir[slots[0] := c] {
      if p !in pgdir {
        var i :| 0 <= i < |slots| && slots[i] == p;
        if i > 0 { assert slots[1..][i - 1] == p; }
      }
    }
  }

  lemma SlotReturned(pgdir: map<nat, nat>, slots: seq<nat>, p: nat)
    requires SlotsOk(pgdir, slots) && p in pgdir && p < MAXPROC
    ensures SlotsOk(pgdir - {p}, [p] + slots)
  {
    var t := [p] + slots;
    forall q | 0 <= q < MAXPROC ensures q in t || q in pgdir - {p} {
      if q in slots {
        var i :| 0 <= i < |slots| && slots[i] == q;
        assert t[i + 1] == q;
      } else if q == p {
        assert t[0] == p;
      }
    }
  }

  // ----------------------------------------------------------------- faults

  lemma AccessReady(y: Sys, v: nat)
    requires Valid(y) && y.current != -1 && InWindow(v)
    ensures Inv(y.vm) && Space(y.vm, y.vm.cr3) && Lower(v) && y.vm.cr3 < |y.vm.mem|
    ensures Lookup(y.vm, v) == Get(y.vm.ent, K0(y.vm.cr3, v)) && Settled(y.vm)
  {
    WindowDigits(v);
    LookupIs(y.vm, v);
  }

  /** Fault if need be, then access through the refilled TLB. */
  ghost function TouchF(s: Vm, v: nat, write: bool): Vm
    requires Inv(s) && Space(s, s.cr3) && Lower(v) && s.cr3 < |s.mem|
    requires Lookup(s, v) == Get(s.ent, K0(s.cr3, v)) && Settled(s)
    requires Affordable(s, v, write)
  {
    CacheF(FaultF(s, v, write), v)
  }

  /** A fault in address space r: entries are only added to r, or re-aimed at v. */
  ghost predicate FaultMoves(s: map<Key, nat>, t: map<Key, nat>, r: nat, v: nat) {
    && (forall k :: k in s ==> k in t && (k != K0(r, v) ==> t[k] == s[k]))
    && (forall k :: k in t && k !in s ==> k.root == r && k.level <= 3)
  }

  ghost predicate SamePages(s: Vm, t: Vm)
    requires Inv(s) && Inv(t)
  {
    forall k: Key {:trigger PageAt(t, k)} {:trigger PageAt(s, k)} ::
      k.level == 0 ==> PageAt(t, k) == PageAt(s, k)
  }

  lemma ZeroMoves(s: Vm, r: nat, v: nat)
    requires Inv(s) && Space(s, r) && Lower(v) && K0(r, v) !in s.ent
    requires |s.free| >= 1 + Missing(s.ent, r, v)
    ensures FaultMoves(s.ent, ZeroF(s, r, v).ent, r, v) && SamePages(s, ZeroF(s, r, v))
  {
    hide Inv, ZeroF, Missing, K2, K3;
    var t := ZeroF(s, r, v);
    var m := t.ent - {K0(r, v)};
    forall k | k in s.ent ensures k in t.ent && (k != K0(r, v) ==> t.ent[k] == s.ent[k]) {
      assert k in m;
    }
    forall k | k in t.ent && k !in s.ent ensures k.root == r && k.level <= 3 {
      assert k != K0(r, v) ==> k in m;
    }
    forall k: Key | k.level == 0 ensures PageAt(t, k) == PageAt(s, k) {
      ZeroKeepsPages(s, r, v, k);
    }
  }

  lemma CowMoves(s: Vm, r: nat, v: nat)
    requires Inv(s) && Space(s, r) && Lower(v) && K0(r, v) in s.ent && s.free != []
    requires NamedAt(s, K0(r, v)) && s.hold[FrameOf(s.ent[K0(r, v)])] >= 0
    ensures FaultMoves(s.ent, CowF(s, r, v).ent, r, v) && SamePages(s, CowF(s, r, v))
  {
    hide Inv, CowF, Missing, K1, K2, K3;
    var t := CowF(s, r, v);
    forall k: Key | k.level == 0 ensures PageAt(t, k) == PageAt(s, k) {
      CowKeepsPages(s, r, v, k);
    }
  }

  /** The fault handler leaves the page accessible, and every page as it read. */
  lemma FaultOk(s: Vm, v: nat, write: bool)
    requires UserOk(s) && Space(s, s.cr3) && Coherent(s) && InWindow(v) && Lower(v)
    requires s.cr3 < |s.mem| && Lookup(s, v) == Get(s.ent, K0(s.cr3, v))
    requires Affordable(s, v, write)
    ensures var t := FaultF(s, v, write);
      && UserOk(t) && t.cr3 == s.cr3 && Coherent(t) && t.hold == s.hold
      && K0(s.cr3, v) in t.ent && (write ==> Writable(t.ent[K0(s.cr3, v)]))
      && FaultMoves(s.ent, t.ent, s.cr3, v) && SamePages(s, t)
  {
    hide Inv, ZeroF, CowF, PageOk, SamePages, Walk, Missing, K1, K2, K3;
    var r := s.cr3;
    var k := K0(r, v);
    if k !in s.ent {
      ZeroOk(s, r, v);
      ZeroMoves(s, r, v);
      FlagsAre(s.free[0]);
    } else {
      PresentEntry(s, k);
      if write && !Writable(s.ent[k]) {
        SettledAt(s, k);
        CowOk(s, r, v);
        CowMoves(s, r, v);
        FlagsAre(s.free[0]);
      } else {
        SamePagesSelf(s);
      }
    }
  }

  lemma PresentEntry(s: Vm, k: Key)
    requires Inv(s) && k in s.ent && k.level < 4
    ensures Present(s.ent[k])
  {
    assert NamedAt(s, k);
  }

  lemma SamePagesSelf(s: Vm)
    requires Inv(s)
    ensures SamePages(s, s)
  {
  }

  /** Caching what a walk finds keeps the TLB coherent and changes nothing else. */
  lemma CacheOk(s: Vm, v: nat)
    requires UserOk(s) && Space(s, s.cr3) && Coherent(s) && Lower(v)
    ensures s.cr3 < |s.mem|
    ensures var t := CacheF(s, v);
      && UserOk(t) && Coherent(t) && SamePages(s, t) && t == s.(tlb := t.tlb)
      && (K0(s.cr3, v) in s.ent ==> v in t.tlb)
  {
    LookupIs(s, v);
    WalkIsLookup(s, s.cr3, v);
    TlbOnly(s, CacheF(s, v));
    if K0(s.cr3, v) in s.ent { PresentEntry(s, K0(s.cr3, v)); }
  }

  lemma TlbOnly(s: Vm, t: Vm)
    requires UserOk(s) && t == s.(tlb := t.tlb, cr3 := t.cr3)
    ensures UserOk(t) && Inv(s) && Inv(t) && SamePages(s, t)
  {
    TablesSame(s, t);
    forall k | k in t.ent ensures PageOk(t, k) { assert PageOk(s, k); }
  }

  /** After TouchF the access goes through a cached, coherent, sufficient entry. */
  lemma TouchOk(s: Vm, v: nat, write: bool)
    requires UserOk(s) && Space(s, s.cr3) && Coherent(s) && InWindow(v) && Lower(v)
    requires s.cr3 < |s.mem| && Lookup(s, v) == Get(s.ent, K0(s.cr3, v))
    requires Affordable(s, v, write)
    ensures var t := TouchF(s, v, write);
      && UserOk(t) && t.cr3 == s.cr3 && Coherent(t) && t.hold == s.hold
      && v in t.tlb && K0(s.cr3, v) in t.ent && (write ==> Writable(t.ent[K0(s.cr3, v)]))
      && FaultMoves(s.ent, t.ent, s.cr3, v) && SamePages(s, t)
  {
    hide Inv, FaultF, CacheF, PageOk, PageAt, Walk, Missing, K1, K2, K3, Affordable, Settled;
    FaultOk(s, v, write);
    var u := FaultF(s, v, write);
    assert Space(u, u.cr3);
    CacheOk(u, v);
    var t := TouchF(s, v, write);
    forall k: Key | k.level == 0 ensures PageAt(t, k) == PageAt(s, k) {
      assert PageAt(u, k) == PageAt(s, k);
    }
  }
}
