/** Frames that the kernel takes, fills and keeps for good, as it does with every disk
    block it reads. */
module Kept {
  import opened Words
  import opened Vm
  import opened PageTable
  import opened AddressSpace
  import opened Teardown
  import opened UserPages

  /** Frames that are still free were free and hold what they held. */
  ghost predicate FreeKept(s: Vm, t: Vm)
    requires Sized(s) && Sized(t)
  {
    && |t.mem| == |s.mem|
    && forall f {:trigger t.role[f]} :: 0 <= f < |s.mem| && t.role[f].Free? ==>
         s.role[f].Free? && t.mem[f] == s.mem[f]
  }

  lemma FreeKeptTrans(s: Vm, t: Vm, u: Vm)
    requires Sized(s) && Sized(t) && Sized(u) && FreeKept(s, t) && FreeKept(t, u)
    ensures FreeKept(s, u)
  {
  }

  /** t is s with n frames of the free list taken and kept, and nothing else changed. */
  ghost predicate Takes(s: Vm, t: Vm, n: nat) {
    && Inv(s) && Inv(t) && t.ent == s.ent && t.tlb == s.tlb && t.cr3 == s.cr3 && t.khalf == s.khalf
    && DataKept(s, t) && FreeKept(s, t) && HoldKept(s, t)
    && n <= |s.free| && t.free == s.free[n..]
  }

  /** alloc_page, fill the frame with d, and keep it. */
  ghost function KeepF(s: Vm, d: Frame): (t: Vm)
    requires Inv(s) && s.free != []
    ensures Takes(s, t, 1)
  {
    KeepTakes(s, d);
    FillF(AllocF(s, false), s.free[0], d)
  }

  lemma KeepTakes(s: Vm, d: Frame)
    requires Inv(s) && s.free != []
    ensures s.free[0] < |s.mem| && Takes(s, FillF(AllocF(s, false), s.free[0], d), 1)
    ensures s.role[s.free[0]].Free?
  {
    AllocInv(s, false);
    FillInv(AllocF(s, false), s.free[0], d);
    assert RoleAt(s, s.free[0]);
    hide TablesStored, KernelShared, Named, Closed, FreeExact;
    forall f | 0 <= f < |s.mem| && s.role[f].Free? ensures s.hold[f] >= 0 { FreeHold(s, f); }
  }

  lemma TakesTrans(s: Vm, t: Vm, u: Vm, n: nat, m: nat)
    requires Takes(s, t, n) && Takes(t, u, m)
    ensures Takes(s, u, n + m)
  {
    hide Inv;
    SizedAll(s);
    SizedAll(t);
    SizedAll(u);
    DataKeptTrans(s, t, u);
    FreeKeptTrans(s, t, u);
    HoldKeptTrans(s, t, u);
  }

  lemma HoldKeptTrans(s: Vm, t: Vm, u: Vm)
    requires Sized(s) && Sized(t) && Sized(u) && FreeKept(s, t) && HoldKept(s, t) && HoldKept(t, u)
    ensures HoldKept(s, u)
  {
    forall f | 0 <= f < |s.mem|
      ensures if s.role[f].Free? then u.hold[f] >= 0 else u.hold[f] == s.hold[f]
    {
      assert t.role[f].Free? || u.hold[f] == t.hold[f];
    }
  }

  lemma TakesNothing(s: Vm)
    requires Inv(s)
    ensures Takes(s, s, 0)
  {
    forall f | 0 <= f < |s.mem| && s.role[f].Free? ensures s.hold[f] >= 0 { FreeHold(s, f); }
    hide Inv;
  }

  /** Frame after frame. */
  ghost function KeepAllF(s: Vm, ds: seq<Frame>): (t: Vm)
    requires Inv(s) && |s.free| >= |ds|
    ensures Takes(s, t, |ds|)
    decreases |ds|
  {
    hide Inv, Takes;
    if ds == [] then TakesNothing(s); s else
      var n := |ds| - 1;
      var u := KeepAllF(s, ds[..n]);
      TakesParts(s, u, n);
      TakesTrans(s, u, KeepF(u, ds[n]), n, 1);
      KeepF(u, ds[n])
  }

  lemma TakesParts(s: Vm, t: Vm, n: nat)
    requires Takes(s, t, n)
    ensures Inv(s) && Inv(t) && |s.free| == |t.free| + n && t.ent == s.ent && DataKept(s, t)
    ensures t.tlb == s.tlb && t.cr3 == s.cr3 && t.khalf == s.khalf
  {
    hide Inv;
  }

  lemma KeepOne(s: Vm, d: Frame)
    requires Inv(s) && s.free != []
    ensures KeepAllF(s, [d]) == KeepF(s, d)
  {
    assert [d][..0] == [];
    assert KeepAllF(s, []) == s;
  }

  lemma {:induction false} KeepMore(s: Vm, a: seq<Frame>, b: seq<Frame>)
    requires Inv(s) && |s.free| >= |a| + |b|
    ensures Inv(KeepAllF(s, a)) && |KeepAllF(s, a).free| >= |b|
    ensures KeepAllF(s, a + b) == KeepAllF(KeepAllF(s, a), b)
    decreases |b|
  {
    hide Inv, Takes;
    TakesParts(s, KeepAllF(s, a), |a|);
    if b == [] {
      assert a + b == a;
    } else {
      var n := |b| - 1;
      KeepMore(s, a, b[..n]);
      assert (a + b)[..|a + b| - 1] == a + b[..n] && (a + b)[|a + b| - 1] == b[n];
    }
  }

  lemma AllocTakes(s: Vm)
    requires Inv(s) && s.free != []
    ensures s.free[0] < |s.mem| && Takes(s, AllocF(s, false), 1)
  {
    AllocInv(s, false);
    KeepTakes(s, s.mem[s.free[0]]);
    assert AllocF(s, false).mem[s.free[0] := s.mem[s.free[0]]] == AllocF(s, false).mem;
  }

  /** A frame that was taken may be written to. */
  lemma FillTakes(s: Vm, t: Vm, n: nat, f: nat, d: Frame)
    requires Takes(s, t, n) && f < |s.mem| && s.role[f].Free? && t.role[f].Data?
    ensures Takes(s, FillF(t, f, d), n)
  {
    FillInv(t, f, d);
    hide Inv;
  }

  /** A frame for a page: alloc_page, the blocks kept, the content d. */
  ghost function ReadInF(s: Vm, d: Frame, kept: seq<Frame>): (t: Vm)
    requires Inv(s) && |s.free| >= 1 + |kept|
    ensures Takes(s, t, 1 + |kept|) && s.free[0] < |t.mem|
    ensures t.role[s.free[0]].Data? && t.mem[s.free[0]] == d && t.hold[s.free[0]] == 1
  {
    ReadInTakes(s, d, kept);
    FillF(KeepAllF(AllocF(s, false), kept), s.free[0], d)
  }

  lemma ReadInTakes(s: Vm, d: Frame, kept: seq<Frame>)
    requires Inv(s) && |s.free| >= 1 + |kept|
    ensures s.free[0] < |s.mem| && Inv(AllocF(s, false)) && |AllocF(s, false).free| >= |kept|
    ensures var b := KeepAllF(AllocF(s, false), kept);
      && s.free[0] < |b.mem| && Takes(s, FillF(b, s.free[0], d), 1 + |kept|)
      && b.role[s.free[0]].Data? && b.hold[s.free[0]] == 1
  {
    AllocTakes(s);
    hide Inv;
    var a, f := AllocF(s, false), s.free[0];
    FirstFree(s);
    var b := KeepAllF(a, kept);
    SizedAll(b);
    TakesTrans(s, a, b, 1, |kept|);
    FillTakes(s, b, 1 + |kept|, f, d);
  }

  lemma KeepHolds(s: Vm, d: Frame)
    requires Inv(s) && s.free != []
    ensures s.free[0] < |s.hold| && KeepF(s, d).hold == s.hold[s.free[0] := 1] && |KeepF(s, d).mem| == |s.mem|
    ensures forall f :: 0 <= f < |s.mem| && f != s.free[0] ==> KeepF(s, d).mem[f] == s.mem[f]
  {
    FirstFree(s);
  }

  /** Its two parts. */
  lemma KeepParts(s: Vm, d: Frame)
    requires Inv(s) && s.free != []
    ensures s.free[0] < |s.mem| && Inv(AllocF(s, false)) && |AllocF(s, false).mem| == |s.mem|
    ensures s.free[0] < |AllocF(s, false).role| && AllocF(s, false).role[s.free[0]].Data?
    ensures KeepF(s, d) == FillF(AllocF(s, false), s.free[0], d)
  {
    AllocInv(s, false);
  }

  lemma FirstFree(s: Vm)
    requires Inv(s) && s.free != []
    ensures s.free[0] < |s.mem| == |s.role| == |s.hold| && s.role[s.free[0]].Free? && s.hold[s.free[0]] == 0
  {
    AllocInv(s, false);
    assert RoleAt(s, s.free[0]);
    FreeHold(s, s.free[0]);
  }

  /** With one frame more held, the free list is one shorter. */
  lemma OneHeld(s: Vm, t: Vm, f: nat)
    requires Inv(s) && Inv(t) && |t.mem| == |s.mem| && t.ent == s.ent && f < |s.mem| && |s.hold| == |s.mem|
    requires s.role[f].Free? && t.hold == s.hold[f := 1]
    ensures |s.free| == |t.free| + 1
  {
    hide TablesStored, KernelShared, Named, Closed, FreeExact;
    FreeHold(s, f);
    assert RoleAt(s, f);
    forall g | 0 <= g < |s.mem| ensures t.count[g] == s.count[f := 1][g] {
      assert CountAt(s, g) && CountAt(t, g);
    }
    assert t.count == s.count[f := 1];
    FreeCard(s.count, s.free);
    FreeCard(t.count, t.free);
    assert Unused(s.count) == Unused(t.count) + {f};
  }

  ghost function Unused(count: seq<int>): set<nat> { set f: nat | f < |count| && count[f] == 0 }

  ghost function Elements(s: seq<nat>): set<nat> { set x | x in s }

  lemma FreeCard(count: seq<int>, free: seq<nat>)
    requires FreeExact(count, free)
    ensures |free| == |Unused(count)|
  {
    SeqCard(free);
    assert Elements(free) == Unused(count);
  }

  lemma {:induction false} SeqCard(s: seq<nat>)
    requires forall i, j :: 0 <= i < j < |s| ==> s[i] != s[j]
    ensures |Elements(s)| == |s|
  {
    if s != [] {
      SeqCard(s[1..]);
      assert s == [s[0]] + s[1..];
      assert s[0] !in s[1..];
      assert Elements(s) == Elements(s[1..]) + {s[0]};
    }
  }

  // ------------------------------------------------- what it changes for users

  /** Keeping frames leaves all pages and their entries in order. */
  lemma TakesOk(s: Vm, t: Vm, n: nat)
    requires Takes(s, t, n) && UserOk(s)
    ensures UserOk(t)
  {
    hide Inv, FreeKept, DataKept;
    SizedAll(s);
    SizedAll(t);
    assert Settled(t);
    forall k | k in t.ent ensures PageOk(t, k) {
      assert PageOk(s, k);
      NotFreeHere(s, k);
    }
  }

  lemma NotFreeHere(s: Vm, k: Key)
    requires Inv(s) && k in s.ent
    ensures FrameOf(s.ent[k]) < |s.mem| == |s.role| && !s.role[FrameOf(s.ent[k])].Free?
  {
    assert NamedAt(s, k);
  }

  /** No page reads otherwise. */
  lemma TakesPages(s: Vm, t: Vm, n: nat, k: Key)
    requires Takes(s, t, n) && k.level == 0
    ensures PageAt(t, k) == PageAt(s, k)
  {
    hide Inv, FreeKept, HoldKept;
    PageSame(s, t, k);
  }
}
