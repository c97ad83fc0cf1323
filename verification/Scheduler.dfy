/** The scan of `schedule` over the process slots, and who it lets wait. */
module Scheduler {
  import opened Limits

  /** The last slot. */
  const LAST: nat := MAXPROC - 1

  datatype Status = Running | Runnable | Sleep | Stop

  /** The slot d places after cur in cyclic order, for d up to MAXPROC. */
  function At(cur: nat, d: nat): nat { if cur + d < MAXPROC then cur + d else cur + d - MAXPROC }

  lemma AtStep(cur: nat, d: nat)
    requires cur < MAXPROC && 1 <= d < MAXPROC
    ensures At(cur, d) < MAXPROC && At(cur, d) != cur && At(cur, MAXPROC) == cur
    ensures (At(cur, d) + 1) % MAXPROC == At(cur, d + 1)
    ensures (cur + 1 + 1) % MAXPROC == At(cur, 2) && (cur < LAST ==> At(cur, 1) == cur + 1)
  {
  }

  /** The first runnable slot among At(cur, d), ..., At(cur, MAXPROC); -1 if none. */
  function Scan(run: set<nat>, cur: nat, d: nat): int
    decreases 11 - d
  {
    if d > MAXPROC then -1
    else if At(cur, d) in run then At(cur, d)
    else Scan(run, cur, d + 1)
  }

  /** What schedule dispatches.  The index wraps only after the first probe, so
      from the last slot the first probe falls behind the table and slot 0 is
      passed over. */
  function Next(run: set<nat>, cur: nat): int
  {
    Scan(run, cur, if cur == LAST then 2 else 1)
  }

  /** Scan finds the nearest runnable slot, or reports that there is none. */
  lemma {:induction false} ScanNearest(run: set<nat>, cur: nat, d: nat)
    ensures Scan(run, cur, d) == -1 <==> forall e :: d <= e <= MAXPROC ==> At(cur, e) !in run
    ensures Scan(run, cur, d) != -1 ==>
      exists n :: d <= n <= MAXPROC && Scan(run, cur, d) == At(cur, n) && At(cur, n) in run
                  && forall e :: d <= e < n ==> At(cur, e) !in run
    decreases 11 - d
  {
    if d <= MAXPROC && At(cur, d) !in run {
      ScanNearest(run, cur, d + 1);
    }
  }

  /** From slot cur, schedule dispatches the nearest runnable slot in cyclic order, cur
      itself being the farthest; from the last slot the nearest one is not looked at. */
  lemma NextNearest(run: set<nat>, cur: nat, first: nat)
    requires first == if cur == LAST then 2 else 1
    ensures Next(run, cur) == -1 <==> forall e :: first <= e <= MAXPROC ==> At(cur, e) !in run
    ensures forall n :: first <= n <= MAXPROC && At(cur, n) in run
                        && (forall e :: first <= e < n ==> At(cur, e) !in run)
                        ==> Next(run, cur) == At(cur, n)
  {
    hide At;
    ScanNearest(run, cur, first);
  }

  predicate Slots(run: set<nat>) { forall p :: p in run ==> p < MAXPROC }

  /** From every slot but the last, schedule finds a runnable slot if there is one. */
  lemma NextComplete(run: set<nat>, cur: nat)
    requires Slots(run) && cur < LAST
    ensures Next(run, cur) == -1 <==> run == {}
  {
    ScanNearest(run, cur, 1);
    forall p | p in run ensures exists d :: 1 <= d <= MAXPROC && At(cur, d) == p {
      var d := if p > cur then p - cur else p + MAXPROC - cur;
      assert At(cur, d) == p;
    }
  }

  /** From the last slot, schedule does not see slot 0. */
  lemma NextFromLast(run: set<nat>)
    requires Slots(run)
    ensures Next(run, LAST) == -1 <==> run <= {0}
    ensures Next(run, LAST) != 0
  {
    ScanNearest(run, LAST, 2);
    forall p | p in run && p != 0 ensures exists d :: 2 <= d <= MAXPROC && At(LAST, d) == p {
      assert At(LAST, p + 1) == p;
    }
  }

  /** The slot running after n dispatches, if the runnable set does not change. */
  function After(run: set<nat>, cur: nat, n: nat): int
  {
    if n == 0 then cur else
      var c := After(run, cur, n - 1);
      if c < 0 then c else Next(run, c)
  }

  function Dist(cur: nat, q: nat): nat
    requires cur < MAXPROC && q < MAXPROC
  {
    if q > cur then q - cur else q + MAXPROC - cur
  }

  /** Each dispatch that is not q itself brings the scan nearer to q, unless it passes
      slot 0 over. */
  lemma Nearer(run: set<nat>, cur: nat, q: nat)
    requires Slots(run) && cur < MAXPROC && q in run && !(cur == LAST && q == 0)
    ensures 0 <= Next(run, cur) < MAXPROC && Next(run, cur) in run
    ensures Next(run, cur) == q || Dist(Next(run, cur), q) < Dist(cur, q)
  {
    assert At(cur, Dist(cur, q)) == q;
    ScanNearest(run, cur, if cur == LAST then 2 else 1);
  }

  lemma {:induction false} AfterShift(run: set<nat>, cur: nat, n: nat)
    requires 0 <= Next(run, cur)
    ensures After(run, cur, n + 1) == After(run, Next(run, cur), n)
  {
    if n > 0 { AfterShift(run, cur, n - 1); }
  }

  lemma {:induction false} ReachedWithin(run: set<nat>, cur: nat, q: nat) returns (n: nat)
    requires Slots(run) && cur < MAXPROC && q in run && (q == 0 ==> cur != LAST && LAST !in run)
    ensures 1 <= n <= Dist(cur, q) && After(run, cur, n) == q
    decreases Dist(cur, q)
  {
    Nearer(run, cur, q);
    var c := Next(run, cur);
    if c == q {
      n := 1;
      assert After(run, cur, 1) == Next(run, After(run, cur, 0));
    } else {
      n := ReachedWithin(run, c, q);
      AfterShift(run, cur, n);
      n := n + 1;
    }
  }

  /** With slots 0 and LAST both runnable, slot 0 is never dispatched from slot LAST on. */
  lemma {:induction false} ZeroStarves(run: set<nat>, n: nat)
    requires Slots(run) && 0 in run && LAST in run
    ensures 1 <= After(run, LAST, n) <= LAST && After(run, LAST, n) in run
  {
    if n > 0 {
      ZeroStarves(run, n - 1);
      var c := After(run, LAST, n - 1);
      ScanNearest(run, c, if c == LAST then 2 else 1);
      if c == LAST {
        assert At(LAST, MAXPROC) == LAST;
      } else {
        assert At(c, LAST - c) == LAST;
      }
    }
  }

  /** Whatever is runnable and from wherever schedule starts, every runnable slot but 0 runs
      within as many dispatches as it lies slots away, ten at most. */
  lemma OthersRun(run: set<nat>, cur: nat, q: nat)
    requires Slots(run) && cur < MAXPROC && q in run && q != 0
    ensures exists n :: 1 <= n <= Dist(cur, q) <= MAXPROC && After(run, cur, n) == q
  {
    var n := ReachedWithin(run, cur, q);
  }

  ghost predicate Fair(run: set<nat>) {
    forall cur, q :: cur in run && q in run ==> exists n :: 1 <= n <= MAXPROC && After(run, cur, n) == q
  }

  /** Bounded waiting holds exactly when the first and the last slot are not both
      runnable: then every runnable slot runs within ten dispatches. */
  lemma BoundedWaiting(run: set<nat>)
    requires Slots(run)
    ensures Fair(run) <==> !(0 in run && LAST in run)
  {
    if 0 in run && LAST in run {
      forall n | 1 <= n <= MAXPROC ensures After(run, LAST, n) != 0 { ZeroStarves(run, n); }
    } else {
      forall cur, q | cur in run && q in run
        ensures exists n :: 1 <= n <= MAXPROC && After(run, cur, n) == q
      {
        var n := ReachedWithin(run, cur, q);
      }
    }
  }
}
