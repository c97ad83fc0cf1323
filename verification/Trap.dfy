/** The page-fault handler of kernel/amd64/trap.c, and the MMU that calls it. */
module Trap {
  import opened Words
  import opened Vm
  import opened PageTable
  import opened AddressSpace
  import opened Teardown
  import opened System
  import opened Steps
  import opened Mm
  import opened ProcVm

  /** Page-fault error code bits. */
  const PFEC_U: nat := 4
  const PFEC_W: nat := 2
  const PFEC_P: nat := 1

  /** What TouchF asks for. */
  ghost predicate Touchable(s: Vm, v: nat, write: bool) {
    && Inv(s) && Space(s, s.cr3) && Lower(v) && s.cr3 < |s.mem|
    && Lookup(s, v) == Get(s.ent, K0(s.cr3, v)) && Settled(s) && Affordable(s, v, write)
  }

  lemma TouchParts(s: Vm, v: nat, write: bool)
    requires Touchable(s, v, write)
    ensures var w := Lookup(s, v);
      && (!Present(w) ==>
            K0(s.cr3, v) !in s.ent && |s.free| >= 1 + Missing(s.ent, s.cr3, v)
            && FaultF(s, v, write) == ZeroF(s, s.cr3, v))
      && (Present(w) && write && !Writable(w) ==>
            K0(s.cr3, v) in s.ent && s.free != [] && Removable(s, s.cr3, v)
            && FaultF(s, v, write) == CowF(s, s.cr3, v))
      && (Present(w) && !(write && !Writable(w)) ==> FaultF(s, v, write) == s)
  {
    var k := K0(s.cr3, v);
    if k in s.ent { PresentEntry(s, k); SettledAt(s, k); }
  }

  lemma CowParts(s: Vm, r: nat, v: nat)
    requires Inv(s) && Space(s, r) && Lower(v) && K0(r, v) in s.ent && s.free != []
    requires Removable(s, r, v)
    ensures var b := CopyF(s, K0(r, v));
      && Space(b, r) && K0(r, v) in b.ent && Removable(b, r, v) && b.cr3 == s.cr3
      && var d := RemoveF(b, r, v);
      && Space(d, r) && d.cr3 == s.cr3 && K0(r, v) !in d.ent && |d.free| >= Missing(d.ent, r, v)
      && s.free[0] < |d.mem| && d.role[s.free[0]].Data?
      && CowF(s, r, v) == InsertF(d, r, v, s.free[0], UWP)
  {
    var b := CopyF(s, K0(r, v));
    TablesAbove(s, r, v);
    assert NamedAt(b, K0(r, v));
    CowTail(s, r, v, b, RemoveF(b, r, v));
  }

  /** The running address space of a machine at work for a process. */
  ghost predicate Running(s: Vm, r: nat) {
    Inv(s) && s.cr3 == r && Space(s, r) && Coherent(s) && Settled(s)
  }

  /** The not-present branch of do_trap, case 14. */
  method DemandZero(m: Machine, r: nat, va: nat)
    requires m.Valid() && Space(m.S(), r) && Lower(va / 4096)
    requires K0(r, va / 4096) !in m.ent && |m.free| >= 1 + Missing(m.ent, r, va / 4096)
    modifies m, m.mem, m.count
    ensures m.Valid() && m.S() == ZeroF(old(m.S()), r, va / 4096)
  {
    hide Inv, InsertF, FreeExact, Linked, Missing;
    ghost var s := m.S();
    AllocInv(s, true);
    var pp := m.AllocPage(1);
    var ret := m.InsertPage(r, va, pp, UWP);
  }

  /** The write-to-present branch: copy, unmap, map the copy. */
  method CopyOnWrite(m: Machine, r: nat, va: nat)
    requires m.Valid() && Running(m.S(), r) && Lower(va / 4096) && m.free != []
    requires K0(r, va / 4096) in m.ent && Removable(m.S(), r, va / 4096)
    modifies m, m.mem, m.count, m.link
    ensures m.Valid() && m.S() == CowF(old(m.S()), r, va / 4096)
  {
    hide Inv, InsertF, CopyF, RemoveF, CowF, FreeExact, Linked, Missing;
    CowParts(m.S(), r, va / 4096);
    var pp := CopyPage(m, va);
    var ret := m.RemovePage(r, va);
    ret := m.InsertPage(r, va, pp, UWP);
  }

  /** What the handler does to the address space of page v for an error code. */
  ghost predicate Handled(s: Vm, t: Vm, r: nat, v: nat, err: nat) {
    if err % 2 == 0 then
      Inv(s) && Space(s, r) && Lower(v) && K0(r, v) !in s.ent
      && |s.free| >= 1 + Missing(s.ent, r, v) && t == ZeroF(s, r, v)
    else if err / 2 % 2 == 1 then
      Inv(s) && Space(s, r) && Lower(v) && K0(r, v) in s.ent && s.free != []
      && Removable(s, r, v) && t == CowF(s, r, v)
    else t == s
  }

  /** The error code is true of the page tables, and a frame can be found. */
  ghost predicate FaultTrue(s: Vm, r: nat, v: nat, err: nat) {
    && (err % 2 == 0 ==> K0(r, v) !in s.ent && |s.free| >= 1 + Missing(s.ent, r, v))
    && (err % 2 == 1 && err / 2 % 2 == 1 ==>
          K0(r, v) in s.ent && s.free != [] && Inv(s) && Removable(s, r, v))
  }

  /** do_trap, case 14: demand-zero and copy-on-write.  For a fault in kernel mode it
      panics first, which is one hlt: if the processor wakes up the handler goes on. */
  method PageFault(m: Machine, r: nat, cr2: nat, err: nat) returns (panicked: bool)
    requires m.Valid() && Running(m.S(), r) && Lower(cr2 / 4096)
    requires FaultTrue(m.S(), r, cr2 / 4096, err)
    modifies m, m.mem, m.count, m.link
    ensures m.Valid() && panicked == (err / 4 % 2 == 0)
    ensures Handled(old(m.S()), m.S(), r, cr2 / 4096, err)
  {
    panicked := err / 4 % 2 == 0;
    var va := cr2 / 4096 * 4096;
    assert va / 4096 == cr2 / 4096;
    if err % 2 == 0 {
      DemandZero(m, r, va);
    } else if err / 2 % 2 == 1 {
      CopyOnWrite(m, r, va);
    }
  }

  /** The MMU caches the translation it walks to. */
  method CacheTlb(m: Machine, v: nat)
    requires m.Valid() && m.cr3 < m.mem.Length
    modifies m`tlb
    ensures m.Valid() && m.S() == CacheF(old(m.S()), v)
  {
    ghost var s := m.S();
    TablesSame(s, CacheF(s, v));
    var w := Walk(m.mem[..], m.cr3, v);
    if Present(w) {
      m.tlb := m.tlb[v := w];
    }
  }

  lemma ResolveParts(s: Vm, v: nat, write: bool)
    requires Touchable(s, v, write) && Coherent(s)
    ensures Running(s, s.cr3) && Lower(v) && s.cr3 < |s.mem|
    ensures !Present(Lookup(s, v)) ==> FaultTrue(s, s.cr3, v, 4) && FaultTrue(s, s.cr3, v, 6)
    ensures Present(Lookup(s, v)) && write && !Writable(Lookup(s, v)) ==> FaultTrue(s, s.cr3, v, 7)
    ensures Present(Lookup(s, v)) && !(write && !Writable(Lookup(s, v))) ==> FaultF(s, v, write) == s
  {
    hide ZeroF, CowF, FaultF, Missing, Inv;
    TouchParts(s, v, write);
  }

  lemma HandledIs(s: Vm, t: Vm, v: nat, write: bool, err: nat)
    requires Touchable(s, v, write) && Handled(s, t, s.cr3, v, err)
    requires (!Present(Lookup(s, v)) && (err == 4 || err == 6))
          || (Present(Lookup(s, v)) && write && !Writable(Lookup(s, v)) && err == 7)
    ensures t == FaultF(s, v, write)
  {
    hide ZeroF, CowF, FaultF, Missing, Inv, Touchable, Present, Writable, Lookup;
    TouchParts(s, v, write);
    if err == 4 {
    } else if err == 6 {
    } else {
      assert err == 7;
    }
  }

  lemma FaultedCr3(s: Vm, v: nat, write: bool)
    requires Touchable(s, v, write)
    ensures FaultF(s, v, write).cr3 < |FaultF(s, v, write).mem|
  {
  }

  /** The first translation, and the fault that it raises if it does not suffice. */
  method Resolve(m: Machine, r: nat, v: nat, write: bool)
    requires m.Valid() && r == m.cr3 && Touchable(m.S(), v, write) && Coherent(m.S())
    modifies m, m.mem, m.count, m.link
    ensures m.Valid() && m.S() == FaultF(old(m.S()), v, write)
  {
    hide Inv, FreeExact, Linked, FaultF, Lookup, Handled, FaultTrue, Touchable, Running, Coherent, Lower;
    hide Present, Writable;
    ghost var s := m.S();
    ResolveParts(s, v, write);
    assert v * 4096 / 4096 == v;
    var w := Translate(m, v);
    var panicked;
    if !Present(w) {
      if write {
        panicked := PageFault(m, r, v * 4096, PFEC_U + PFEC_W);
        HandledIs(s, m.S(), v, write, 6);
      } else {
        panicked := PageFault(m, r, v * 4096, PFEC_U);
        HandledIs(s, m.S(), v, write, 4);
      }
    } else if write && !Writable(w) {
      panicked := PageFault(m, r, v * 4096, PFEC_U + PFEC_W + PFEC_P);
      HandledIs(s, m.S(), v, write, 7);
    }
  }

  /** A user access to page v: translate, fault if need be, translate again. */
  method Touch(m: Machine, r: nat, v: nat, write: bool)
    requires m.Valid() && r == m.cr3 && Touchable(m.S(), v, write) && Coherent(m.S())
    modifies m, m.mem, m.count, m.link
    ensures m.Valid() && m.S() == TouchF(old(m.S()), v, write)
  {
    hide Inv, FreeExact, Linked, FaultF, CacheF, Lookup, Coherent;
    FaultedCr3(m.S(), v, write);
    Resolve(m, r, v, write);
    CacheTlb(m, v);
  }

  method LoadWord(m: Machine, r: nat, v: nat, i: nat) returns (x: nat)
    requires m.Valid() && r == m.cr3 && Touchable(m.S(), v, false) && Coherent(m.S()) && i < 512
    requires var t := TouchF(m.S(), v, false); v in t.tlb && UserFrame(t, v) < |t.mem|
    modifies m, m.mem, m.count, m.link
    ensures m.Valid() && m.S() == TouchF(old(m.S()), v, false)
    ensures x == m.mem[UserFrame(m.S(), v)][i]
  {
    hide Inv, FreeExact, Linked, TouchF, Touchable, Coherent;
    Touch(m, r, v, false);
    var w := m.tlb[v];
    x := m.mem[w / 4096][i];
  }

  method StoreWord(m: Machine, r: nat, v: nat, i: nat, x: nat)
    requires m.Valid() && r == m.cr3 && Touchable(m.S(), v, true) && Coherent(m.S()) && i < 512
    requires var t := TouchF(m.S(), v, true);
      v in t.tlb && UserFrame(t, v) < |t.mem| && Inv(PokeF(t, v, i, x))
    modifies m, m.mem, m.count, m.link
    ensures m.Valid() && m.S() == PokeF(TouchF(old(m.S()), v, true), v, i, x)
  {
    ghost var s := TouchF(m.S(), v, true);
    hide Inv, FreeExact, Linked, TouchF, Touchable, Coherent;
    Touch(m, r, v, true);
    var w := m.tlb[v];
    m.mem[w / 4096] := m.mem[w / 4096][i := x];
    assert m.S() == PokeF(s, v, i, x);
  }
}
