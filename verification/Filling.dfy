/** Filling a window with the pages of a program, one by one, and the stack page last.
    exec and create_proc both do it, from a file and from memory. */
module Filling {
  import opened Words
  import opened Vm
  import opened ExecSpace
  import opened Elf

  /** In the empty window of u the pages of the first i segments and n of the next are
      mapped, and `done` blocks were read for them.  There are frames for all pages and
      for `total` blocks. */
  ghost predicate Filled(u: Vm, t: Vm, r: nat, src: Source, segs: seq<Seg>, plan: seq<Mapping>, i: nat, n: nat,
                         done: nat, total: nat) {
    && Plannable(u, r, plan) && t == LoadF(u, r, plan) && SegsOk(segs) && KeptIn(plan) == done <= total
    && Loaded(PagesIn(plan), WasIn(u, t, r, PagesIn(plan), KeptIn(plan)), src, segs, i, n)
    && |u.free| >= Need(u.ent, r, ImagePages(segs)) + total
  }

  lemma FilledStart(u: Vm, r: nat, src: Source, segs: seq<Seg>, total: nat)
    requires Mapped(u, u, r, map[]) && SegsOk(segs) && |u.free| >= Need(u.ent, r, ImagePages(segs)) + total
    ensures Filled(u, u, r, src, segs, [], 0, 0, 0, total)
  {
    hide Mapped, SegsOk, Need, LoadF, Plannable;
    PlanNothing(u, r);
  }

  /** The next page can be mapped, and `more` blocks read to fill it. */
  lemma FilledReady(u: Vm, t: Vm, r: nat, src: Source, segs: seq<Seg>, plan: seq<Mapping>, i: nat, n: nat, done: nat,
                    total: nat, more: nat)
    requires Filled(u, t, r, src, segs, plan, i, n, done, total) && i < |segs| && n < PageCount(segs[i])
    requires done + more <= total
    ensures Plannable(u, r, plan) && t == LoadF(u, r, plan)
    ensures Roomy(u, r, plan, FirstPage(segs[i]) + n, more) && Mappable(t, r, FirstPage(segs[i]) + n, more)
  {
    hide Plannable, LoadF, Loaded, SegsOk, Need, FirstPage, PageCount, ImagePages, PageInF, Placed, WasIn, Mappable;
    var pages, was, v := PagesIn(plan), WasIn(u, t, r, PagesIn(plan), KeptIn(plan)), FirstPage(segs[i]) + n;
    NextPageFree(pages, was, src, segs, i, n);
    LoadedWithin(pages, was, src, segs, i, n);
    NeedMonotone(u.ent, r, pages.Keys + {v}, ImagePages(segs));
    LoadMore(u, r, plan, Mapping(v, ZeroFrame(), seq(more, x => ZeroFrame())));
  }

  lemma FilledMore(u: Vm, t: Vm, r: nat, src: Source, segs: seq<Seg>, plan: seq<Mapping>, i: nat, n: nat, done: nat,
                   total: nat, m: Mapping)
    requires Filled(u, t, r, src, segs, plan, i, n, done, total) && i < |segs| && n < PageCount(segs[i])
    requires m.v == FirstPage(segs[i]) + n && Mappable(t, r, m.v, |m.kept|) && done + |m.kept| <= total
    requires Roomy(u, r, plan, m.v, |m.kept|) && t.free != [] && t.free[0] < |t.mem|
    requires PageGood(m.page, t.mem[t.free[0]], src, segs[i], n)
    ensures Filled(u, MapF(t, r, m), r, src, segs, plan + [m], i, n + 1, done + |m.kept|, total)
  {
    hide Plannable, LoadF, Loaded, SegsOk, Need, FirstPage, PageCount, ImagePages, MapF, PageGood, PagesIn, Mappable,
          Placed, Was, WasIn, Roomy;
    LoadedMore(PagesIn(plan), WasIn(u, t, r, PagesIn(plan), KeptIn(plan)), src, segs, i, n, m.page, t.mem[t.free[0]]);
    LoadMore(u, r, plan, m);
    WasMore(u, t, r, plan, m);
    PlanMore(plan, m);
  }

  lemma FilledNext(u: Vm, t: Vm, r: nat, src: Source, segs: seq<Seg>, plan: seq<Mapping>, i: nat, done: nat, total: nat)
    requires i < |segs| && Filled(u, t, r, src, segs, plan, i, PageCount(segs[i]), done, total)
    ensures Filled(u, t, r, src, segs, plan, i + 1, 0, done, total)
  {
    hide Plannable, LoadF, Loaded, SegsOk, Need, PageCount;
    LoadedNext(PagesIn(plan), WasIn(u, t, r, PagesIn(plan), KeptIn(plan)), src, segs, i);
  }

  /** The window of t is the image that the source describes, in frames of u. */
  ghost predicate Imaged(u: Vm, t: Vm, r: nat, src: Source, segs: seq<Seg>, plan: seq<Mapping>, total: nat) {
    && Plannable(u, r, plan) && t == LoadF(u, r, plan) && KeptIn(plan) == total
    && Image(PagesIn(plan), WasIn(u, t, r, PagesIn(plan), KeptIn(plan)), src, segs)
  }

  ghost function StackPage(): Mapping { Mapping(STACK, ZeroFrame(), []) }

  lemma StackIs()
    ensures StackPage().v == STACK && |StackPage().kept| == 0
  {
  }

  /** The stack page can be mapped. */
  lemma StackRoomy(u: Vm, t: Vm, r: nat, src: Source, segs: seq<Seg>, plan: seq<Mapping>, total: nat)
    requires Filled(u, t, r, src, segs, plan, |segs|, 0, total, total)
    ensures Plannable(u, r, plan) && t == LoadF(u, r, plan)
    ensures Roomy(u, r, plan, STACK, 0) && Continues(u, t, r, plan, StackPage())
  {
    hide Plannable, LoadF, Loaded, SegsOk, Need, ImagePages, MapF, Continues, Placed, WasIn, Image;
    var pages, was := PagesIn(plan), WasIn(u, t, r, PagesIn(plan), KeptIn(plan));
    LoadedWithin(pages, was, src, segs, |segs|, 0);
    LoadedImage(pages, was, src, segs, ZeroFrame());
    NeedMonotone(u.ent, r, pages.Keys + {STACK}, ImagePages(segs));
    LoadMore(u, r, plan, StackPage());
  }

  /** The stack page completes the image. */
  lemma StackDone(u: Vm, t: Vm, r: nat, src: Source, segs: seq<Seg>, plan: seq<Mapping>, total: nat)
    requires Filled(u, t, r, src, segs, plan, |segs|, 0, total, total)
    requires Roomy(u, r, plan, STACK, 0) && Continues(u, t, r, plan, StackPage())
    ensures Imaged(u, MapF(t, r, StackPage()), r, src, segs, plan + [StackPage()], total)
  {
    hide Plannable, LoadF, Loaded, SegsOk, Need, ImagePages, MapF, Placed, Was, WasIn, Image, PagesIn, Mappable;
    MappableFrame(t, r, STACK, 0);
    LoadedImage(PagesIn(plan), WasIn(u, t, r, PagesIn(plan), KeptIn(plan)), src, segs, t.mem[t.free[0]]);
    WasMore(u, t, r, plan, StackPage());
    PlanMore(plan, StackPage());
  }

  lemma MappableFrame(t: Vm, r: nat, v: nat, n: nat)
    requires Mappable(t, r, v, n)
    ensures Inv(t) && t.free != [] && t.free[0] < |t.mem|
  {
  }

  lemma ImagedParts(u: Vm, t: Vm, r: nat, src: Source, segs: seq<Seg>, plan: seq<Mapping>, total: nat)
    requires Imaged(u, t, r, src, segs, plan, total)
    ensures Plannable(u, r, plan) && t == LoadF(u, r, plan) && Placed(u, t, r, PagesIn(plan), KeptIn(plan))
    ensures Image(PagesIn(plan), WasIn(u, t, r, PagesIn(plan), KeptIn(plan)), src, segs)
    ensures Fits(plan) && |u.free| >= PlanCost(u.ent, r, plan) && KeptIn(plan) == total
  {
    hide Mapped, LoadF, Need, PagesIn, Placed, SegGood, Fits, WasIn;
  }
}
