/** What an executable file describes: its headers, its segments and the pages that
    they stand for. */
module Elf {
  import opened Words
  import opened Disk
  import opened Bytes
  import opened Writing
  import FsReads

  // ------------------------------------------------------------------ headers

  /** The ELF header, and what exec reads of the file. */
  const EHDR: nat := 64
  const HEADER: nat := 128
  const PT_LOAD: nat := 1

  /** Little-endian number of n bytes at `at`. */
  function Le(b: seq<byte>, at: nat, n: nat): nat
    requires at + n <= |b|
    decreases n
  {
    if n == 0 then 0 else b[at] as nat + 256 * Le(b, at + 1, n - 1)
  }

  predicate Magic(b: seq<byte>)
    requires |b| >= EHDR
  {
    b[0] == 0x7f && b[1] == 69 && b[2] == 76 && b[3] == 70
  }

  function Phoff(b: seq<byte>): nat
    requires |b| >= EHDR
  {
    Le(b, 32, 8)
  }

  function Phnum(b: seq<byte>): nat
    requires |b| >= EHDR
  {
    Le(b, 56, 2)
  }

  /** The program headers lie within the bytes at hand. */
  predicate HeadersFit(b: seq<byte>)
    requires |b| >= EHDR
  {
    Phoff(b) + 56 * Phnum(b) <= |b|
  }

  datatype Seg = Seg(kind: nat, offset: nat, vaddr: nat, filesz: nat, memsz: nat)

  function SegAt(b: seq<byte>, i: nat): Seg
    requires |b| >= EHDR && HeadersFit(b) && i < Phnum(b)
  {
    var p := Phoff(b) + 56 * i;
    Seg(Le(b, p, 4), Le(b, p + 8, 8), Le(b, p + 16, 8), Le(b, p + 32, 8), Le(b, p + 40, 8))
  }

  function Segs(b: seq<byte>): (s: seq<Seg>)
    requires |b| >= EHDR && HeadersFit(b)
    ensures |s| == Phnum(b) && forall i :: 0 <= i < |s| ==> s[i] == SegAt(b, i)
  {
    seq(Phnum(b), i requires 0 <= i < Phnum(b) => SegAt(b, i))
  }

  // ------------------------------------------------------------------ segments

  /** The first page of a segment; the address is cut to 32 bits. */
  function FirstPage(s: Seg): nat { s.vaddr % 0x1_0000_0000 / 4096 }

  /** The pages a segment takes; none if it is not loaded. */
  function PageCount(s: Seg): nat { if s.kind == PT_LOAD then (s.memsz + 4095) / 4096 else 0 }

  predicate Within(s: Seg, v: nat) { FirstPage(s) <= v < FirstPage(s) + PageCount(s) }

  /** Its pages lie in the window below the stack page. */
  predicate SegOk(s: Seg) {
    s.kind == PT_LOAD ==> TEXT <= FirstPage(s) && FirstPage(s) + PageCount(s) <= STACK
  }

  ghost predicate NoOverlap(segs: seq<Seg>, a: nat, b: nat)
    requires a < |segs| && b < |segs|
  {
    forall v: nat :: !(Within(segs[a], v) && Within(segs[b], v))
  }

  /** Segments that do not overlap. */
  ghost predicate SegsOk(segs: seq<Seg>) {
    && (forall i :: 0 <= i < |segs| ==> SegOk(segs[i]))
    && (forall a: nat, b: nat {:trigger NoOverlap(segs, a, b)} :: a < b < |segs| ==> NoOverlap(segs, a, b))
  }

  /** Where the bytes of a program come from: file ino, or memory. */
  datatype Source = Stored(f: Fs, ino: nat) | InMemory(bytes: seq<byte>)

  function At(src: Source, x: nat): byte {
    match src
    case Stored(f, ino) => ByteAt(f, ino, x)
    case InMemory(bytes) => if x < |bytes| then bytes[x] else 0
  }

  // -------------------------------------------------- the pages they stand for

  /** Page k of segment s in a frame that held `was`: the bytes below p_filesz are the
      file's, a page that starts beyond p_filesz is zero, and the rest of the page in
      which p_filesz lies is whatever the frame held. */
  ghost predicate PageGood(d: Frame, was: Frame, src: Source, s: Seg, k: nat) {
    forall o: nat {:trigger FrameByte(d, o)} :: o < 4096 ==>
      FrameByte(d, o) ==
        if 4096 * k + o < s.filesz then At(src, s.offset + 4096 * k + o) as nat
        else if 4096 * k > s.filesz then 0
        else FrameByte(was, o)
  }

  ghost predicate GoodAt(pages: map<nat, Frame>, was: map<nat, Frame>, src: Source, s: Seg, k: nat) {
    && FirstPage(s) + k in pages && FirstPage(s) + k in was
    && PageGood(pages[FirstPage(s) + k], was[FirstPage(s) + k], src, s, k)
  }

  ghost predicate SegGood(pages: map<nat, Frame>, was: map<nat, Frame>, src: Source, s: Seg, n: nat) {
    forall k: nat {:trigger GoodAt(pages, was, src, s, k)} :: k < n ==> GoodAt(pages, was, src, s, k)
  }

  /** The first i segments, and n pages of the next, are in place; nothing else is. */
  ghost predicate Loaded(pages: map<nat, Frame>, was: map<nat, Frame>, src: Source, segs: seq<Seg>, i: nat,
                         n: nat) {
    && i <= |segs| && (if i < |segs| then n <= PageCount(segs[i]) else n == 0)
    && (forall a :: 0 <= a < i ==> SegGood(pages, was, src, segs[a], PageCount(segs[a])))
    && (i < |segs| ==> SegGood(pages, was, src, segs[i], n))
    && (forall v :: v in pages ==> LoadedPage(segs, i, n, v))
  }

  ghost predicate LoadedPage(segs: seq<Seg>, i: nat, n: nat, v: nat)
    requires i <= |segs|
  {
    (exists a :: 0 <= a < i && Within(segs[a], v))
    || (i < |segs| && FirstPage(segs[i]) <= v < FirstPage(segs[i]) + n)
  }

  ghost predicate InSegment(segs: seq<Seg>, v: nat) { exists a :: 0 <= a < |segs| && Within(segs[a], v) }

  /** The pages that exec maps: those of all segments, and the stack page. */
  ghost function ImagePages(segs: seq<Seg>): (vs: set<nat>)
    ensures STACK in vs
  {
    (set v: nat | TEXT <= v < TOP && InSegment(segs, v)) + {STACK}
  }

  /** What exec leaves in the window, in frames that held `was`: the pages of all
      segments and a zeroed stack page, and no other page. */
  ghost predicate Image(pages: map<nat, Frame>, was: map<nat, Frame>, src: Source, segs: seq<Seg>) {
    && pages.Keys == ImagePages(segs)
    && (forall a :: 0 <= a < |segs| ==> SegGood(pages, was, src, segs[a], PageCount(segs[a])))
    && STACK in pages && pages[STACK] == ZeroFrame()
  }

  /** The address at which byte x of a segment is seen: it starts at the page of p_vaddr,
      cut to 32 bits. */
  function Address(s: Seg, x: nat): nat { s.vaddr % 0x1_0000_0000 / 4096 * 4096 + x }

  lemma AddressIs(s: Seg, x: nat)
    ensures s.vaddr % 4096 == 0 && s.vaddr < 0x1_0000_0000 ==> Address(s, x) == s.vaddr + x
    ensures Address(s, x) / 4096 == FirstPage(s) + x / 4096 && Address(s, x) % 4096 == x % 4096
  {
  }

  /** At its address the process reads byte x of the segment, as the file has it, if it
      lies below both p_filesz and p_memsz. */
  lemma ImageByte(pages: map<nat, Frame>, was: map<nat, Frame>, src: Source, segs: seq<Seg>, a: nat, x: nat)
    requires Image(pages, was, src, segs) && a < |segs| && segs[a].kind == PT_LOAD
    requires x < segs[a].filesz && x < segs[a].memsz
    ensures var va := Address(segs[a], x);
      va / 4096 in pages && FrameByte(pages[va / 4096], va % 4096) == At(src, segs[a].offset + x) as nat
  {
    hide At, FrameByte;
    AddressIs(segs[a], x);
    assert GoodAt(pages, was, src, segs[a], x / 4096);
  }

  /** Byte x of a segment that asks for p_memsz bytes lies in page v. */
  ghost predicate Occupies(s: Seg, x: nat, v: nat) {
    s.kind == PT_LOAD && x < s.memsz && Address(s, x) / 4096 == v
  }

  /** The pages are those with a byte of a segment, and the stack's. */
  lemma ImageCovers(pages: map<nat, Frame>, was: map<nat, Frame>, src: Source, segs: seq<Seg>, v: nat)
    requires Image(pages, was, src, segs) && SegsOk(segs)
    ensures v in pages <==> v == STACK || exists a: nat, x: nat :: a < |segs| && Occupies(segs[a], x, v)
  {
    hide SegGood;
    if v != STACK && v in pages {
      var a :| 0 <= a < |segs| && Within(segs[a], v);
      var x := 4096 * (v - FirstPage(segs[a]));
      AddressIs(segs[a], x);
      assert Occupies(segs[a], x, v);
    }
    forall a: nat, x: nat | a < |segs| && Occupies(segs[a], x, v) ensures v in pages {
      AddressIs(segs[a], x);
      assert SegOk(segs[a]) && Within(segs[a], v);
    }
  }

  // --------------------------------------------- the blocks read to fill them

  /** To fill page k of a segment: none from p_filesz on, else a block of the file, and
      the indirect block on the way to it. */
  function PageReads(s: Seg, k: nat): nat {
    if 4096 * k < s.filesz then FsReads.RoundReads((s.offset + 4096 * k) / 4096) else 0
  }

  /** To fill its first n pages. */
  function SegReads(s: Seg, n: nat): nat { if n == 0 then 0 else SegReads(s, n - 1) + PageReads(s, n - 1) }

  /** To fill the pages of the first i segments. */
  function ImageReads(segs: seq<Seg>, i: nat): nat
    requires i <= |segs|
  {
    if i == 0 then 0 else ImageReads(segs, i - 1) + SegReads(segs[i - 1], PageCount(segs[i - 1]))
  }

  /** And n pages of the next. */
  function ReadsUpTo(segs: seq<Seg>, i: nat, n: nat): nat
    requires i <= |segs|
  {
    ImageReads(segs, i) + if i < |segs| then SegReads(segs[i], n) else 0
  }

  lemma {:induction false} SegReadsUpTo(s: Seg, n: nat, m: nat)
    requires n <= m
    ensures SegReads(s, n) <= SegReads(s, m)
    decreases m
  {
    if n < m { SegReadsUpTo(s, n, m - 1); }
  }

  lemma {:induction false} ReadsWithin(segs: seq<Seg>, i: nat, n: nat)
    requires i <= |segs| && (i < |segs| ==> n <= PageCount(segs[i]))
    ensures ReadsUpTo(segs, i, n) <= ImageReads(segs, |segs|)
    decreases |segs| - i
  {
    if i < |segs| {
      SegReadsUpTo(segs[i], n, PageCount(segs[i]));
      ReadsWithin(segs, i + 1, 0);
    }
  }

  // ----------------------------------------------------- one page, by its bytes

  /** The bytes that the file has for page k of a segment. */
  ghost function FileBytes(src: Source, s: Seg, k: nat): (d: seq<byte>)
    requires 4096 * k <= s.filesz
    ensures |d| == Min(4096, s.filesz - 4096 * k)
  {
    seq(Min(4096, s.filesz - 4096 * k), o requires 0 <= o < 4096 => At(src, s.offset + 4096 * k + o))
  }

  /** What the loop makes of a frame for page k. */
  ghost function PageOf(was: Frame, src: Source, s: Seg, k: nat): Frame {
    if 4096 * k > s.filesz then ZeroFrame() else WithBytes(was, FileBytes(src, s, k))
  }

  lemma PageOfGood(was: Frame, src: Source, s: Seg, k: nat)
    ensures PageGood(PageOf(was, src, s, k), was, src, s, k)
  {
    hide At, FrameByte, WithBytes;
    forall o: nat | o < 4096
      ensures FrameByte(PageOf(was, src, s, k), o) ==
        if 4096 * k + o < s.filesz then At(src, s.offset + 4096 * k + o) as nat
        else if 4096 * k > s.filesz then 0
        else FrameByte(was, o)
    {
      if 4096 * k > s.filesz { ZeroFrameBytes(o); } else { WithBytesAt(was, FileBytes(src, s, k), o); }
    }
  }

  // ------------------------------------------------- the bytes past p_filesz

  /** Every byte of page k from p_filesz on is zero. */
  ghost predicate TailZero(d: Frame, s: Seg, k: nat) {
    forall o: nat {:trigger FrameByte(d, o)} :: o < 4096 && 4096 * k + o >= s.filesz ==> FrameByte(d, o) == 0
  }

  /** A frame without a zero byte. */
  ghost function Dirt(): Frame { seq(512, i => 0x0101_0101_0101_0101) }

  lemma DirtBytes(o: nat)
    requires o < 4096
    ensures FrameByte(Dirt(), o) == 1
  {
    OnesBytes(8, o % 8);
  }

  /** n bytes, all of them 1. */
  function OnesWord(n: nat): nat { if n == 0 then 0 else 1 + 256 * OnesWord(n - 1) }

  lemma {:induction false} OnesBytes(n: nat, j: nat)
    requires j < n
    ensures ByteOf(OnesWord(n), j) == 1 && OnesWord(8) == 0x0101_0101_0101_0101
  {
    if j > 0 { OnesBytes(n - 1, j - 1); }
  }

  /** Exactly when a page of a segment comes out zero from p_filesz on, whatever frame it
      gets: p_filesz must not lie in it.  A page in which p_filesz lies keeps the rest of
      what its frame held; if p_filesz lies at its start, all of it. */
  lemma TailIff(src: Source, s: Seg, k: nat)
    ensures (forall was: Frame {:trigger PageOf(was, src, s, k)} :: TailZero(PageOf(was, src, s, k), s, k))
            <==> 4096 * (k + 1) <= s.filesz || 4096 * k > s.filesz
    ensures !(4096 * (k + 1) <= s.filesz || 4096 * k > s.filesz) ==> !TailZero(PageOf(Dirt(), src, s, k), s, k)
  {
    hide At, FrameByte, PageOf;
    if 4096 * k <= s.filesz < 4096 * (k + 1) {
      var o := s.filesz - 4096 * k;
      PageOfGood(Dirt(), src, s, k);
      DirtBytes(o);
      assert FrameByte(PageOf(Dirt(), src, s, k), o) == 1;
    } else {
      forall was: Frame ensures TailZero(PageOf(was, src, s, k), s, k) { PageOfGood(was, src, s, k); }
    }
  }

  // ------------------------------------------------------ the bss of an image

  /** Byte x of segment s is zero. */
  ghost predicate ZeroByteAt(pages: map<nat, Frame>, s: Seg, x: nat) {
    FirstPage(s) + x / 4096 in pages && FrameByte(pages[FirstPage(s) + x / 4096], x % 4096) == 0
  }

  /** Every byte of the segments between p_filesz and p_memsz is zero, as it should be. */
  ghost predicate BssZero(pages: map<nat, Frame>, segs: seq<Seg>) {
    forall a: nat, x: nat {:trigger ZeroByteAt(pages, segs[a], x)} ::
      a < |segs| && segs[a].kind == PT_LOAD && segs[a].filesz <= x < segs[a].memsz ==> ZeroByteAt(pages, segs[a], x)
  }

  ghost predicate NoBss(segs: seq<Seg>) {
    forall a :: 0 <= a < |segs| && segs[a].kind == PT_LOAD ==> segs[a].memsz <= segs[a].filesz
  }

  /** A byte of the bss is zero if its page starts beyond p_filesz, and else exactly if
      its frame held a zero there. */
  lemma BssByte(pages: map<nat, Frame>, was: map<nat, Frame>, src: Source, segs: seq<Seg>, a: nat, x: nat)
    requires Image(pages, was, src, segs) && a < |segs| && segs[a].kind == PT_LOAD
    requires segs[a].filesz <= x < segs[a].memsz
    ensures var v := FirstPage(segs[a]) + x / 4096;
      && v in was
      && (ZeroByteAt(pages, segs[a], x) <==> x / 4096 * 4096 > segs[a].filesz || FrameByte(was[v], x % 4096) == 0)
  {
    hide At, FrameByte;
    assert GoodAt(pages, was, src, segs[a], x / 4096);
  }

  /** The window of an executable whose frames are all without zero bytes. */
  ghost function DirtyPages(src: Source, segs: seq<Seg>): map<nat, Frame> {
    map v | v in ImagePages(segs) :: DirtyPage(src, segs, v)
  }

  ghost function DirtyPage(src: Source, segs: seq<Seg>, v: nat): Frame {
    if InSegment(segs, v) then
      var a :| 0 <= a < |segs| && Within(segs[a], v);
      PageOf(Dirt(), src, segs[a], v - FirstPage(segs[a]))
    else ZeroFrame()
  }

  lemma OneSegment(segs: seq<Seg>, a: nat, b: nat, v: nat)
    requires SegsOk(segs) && a < |segs| && b < |segs| && Within(segs[a], v) && Within(segs[b], v)
    ensures a == b
  {
    hide Within, SegOk;
    var i, j := if a < b then a else b, if a < b then b else a;
    assert i < j ==> NoOverlap(segs, i, j);
  }

  lemma DirtyAt(src: Source, segs: seq<Seg>, a: nat, v: nat)
    requires SegsOk(segs) && a < |segs| && Within(segs[a], v)
    ensures v in ImagePages(segs) && v != STACK
    ensures DirtyPage(src, segs, v) == PageOf(Dirt(), src, segs[a], v - FirstPage(segs[a]))
  {
    hide PageOf, FirstPage, PageCount;
    assert InSegment(segs, v);
    forall b: nat | b < |segs| && Within(segs[b], v) ensures b == a { OneSegment(segs, a, b, v); }
    SegmentBelow(segs[a], v);
  }

  lemma SegmentBelow(s: Seg, v: nat)
    requires SegOk(s) && Within(s, v)
    ensures TEXT <= v < STACK
  {
  }

  lemma DirtyImage(src: Source, segs: seq<Seg>)
    requires SegsOk(segs)
    ensures Image(DirtyPages(src, segs), map v | v in ImagePages(segs) :: Dirt(), src, segs)
  {
    hide PageGood, PageOf, ImagePages, DirtyPage, SegsOk;
    var pages, was := DirtyPages(src, segs), map v | v in ImagePages(segs) :: Dirt();
    forall a, k: nat | 0 <= a < |segs| && k < PageCount(segs[a]) ensures GoodAt(pages, was, src, segs[a], k) {
      DirtyAt(src, segs, a, FirstPage(segs[a]) + k);
      PageOfGood(Dirt(), src, segs[a], k);
    }
    StackApart(src, segs);
  }

  /** The stack page is in no segment. */
  lemma StackApart(src: Source, segs: seq<Seg>)
    requires SegsOk(segs)
    ensures DirtyPage(src, segs, STACK) == ZeroFrame()
  {
    forall a | 0 <= a < |segs| ensures !Within(segs[a], STACK) { assert SegOk(segs[a]); }
  }

  /** exec gives a program the zeros that it asks for, whatever its frames held, if and
      only if no loaded segment has p_memsz > p_filesz: byte p_filesz itself is always
      left as it was. */
  lemma BssIff(src: Source, segs: seq<Seg>)
    requires SegsOk(segs)
    ensures (forall pages: map<nat, Frame>, was: map<nat, Frame> {:trigger Image(pages, was, src, segs)} ::
               Image(pages, was, src, segs) ==> BssZero(pages, segs))
            <==> NoBss(segs)
  {
    hide Image, DirtyPages, FrameByte, At, SegsOk, PageCount, FirstPage;
    if !NoBss(segs) {
      var a :| 0 <= a < |segs| && segs[a].kind == PT_LOAD && segs[a].memsz > segs[a].filesz;
      var pages, was, x := DirtyPages(src, segs), map v | v in ImagePages(segs) :: Dirt(), segs[a].filesz;
      DirtyImage(src, segs);
      BssByte(pages, was, src, segs, a, x);
      DirtBytes(x % 4096);
      assert !ZeroByteAt(pages, segs[a], x);
    }
  }

  // ----------------------------------------------------------- one page more

  /** What is not there yet when page n of segment i is loaded. */
  lemma NextPageFree(pages: map<nat, Frame>, was: map<nat, Frame>, src: Source, segs: seq<Seg>, i: nat, n: nat)
    requires SegsOk(segs) && Loaded(pages, was, src, segs, i, n) && i < |segs| && n < PageCount(segs[i])
    ensures FirstPage(segs[i]) + n !in pages && InWindow(FirstPage(segs[i]) + n)
  {
    var v := FirstPage(segs[i]) + n;
    assert Within(segs[i], v);
    forall a | 0 <= a < i ensures !Within(segs[a], v) { assert NoOverlap(segs, a, i); }
    assert !LoadedPage(segs, i, n, v);
  }

  lemma SegGoodKept(pages: map<nat, Frame>, was: map<nat, Frame>, src: Source, s: Seg, n: nat, v: nat, d: Frame,
                    w: Frame)
    requires SegGood(pages, was, src, s, n) && v !in pages
    ensures SegGood(pages[v := d], was[v := w], src, s, n)
  {
    hide PageGood;
    var more, held := pages[v := d], was[v := w];
    forall k: nat | k < n ensures GoodAt(more, held, src, s, k) { assert GoodAt(pages, was, src, s, k); }
  }

  lemma LoadedMore(pages: map<nat, Frame>, was: map<nat, Frame>, src: Source, segs: seq<Seg>, i: nat, n: nat, d: Frame,
                  w: Frame)
    requires SegsOk(segs) && Loaded(pages, was, src, segs, i, n) && i < |segs| && n < PageCount(segs[i])
    requires PageGood(d, w, src, segs[i], n)
    ensures var v := FirstPage(segs[i]) + n;
      Loaded(pages[v := d], was[v := w], src, segs, i, n + 1)
  {
    hide PageGood, PageCount, FirstPage, SegsOk;
    NextPageFree(pages, was, src, segs, i, n);
    var v := FirstPage(segs[i]) + n;
    var more, held, n1 := pages[v := d], was[v := w], n + 1;
    forall a | 0 <= a < i ensures SegGood(more, held, src, segs[a], PageCount(segs[a])) {
      SegGoodKept(pages, was, src, segs[a], PageCount(segs[a]), v, d, w);
    }
    SegGoodKept(pages, was, src, segs[i], n, v, d, w);
    forall k: nat | k < n1 ensures GoodAt(more, held, src, segs[i], k) {
      if k < n { assert GoodAt(more, held, src, segs[i], k); }
    }
    forall x | x in more ensures LoadedPage(segs, i, n1, x) {
      if x != v { assert LoadedPage(segs, i, n, x); }
    }
  }

  /** A segment whose pages are all there is done. */
  lemma LoadedNext(pages: map<nat, Frame>, was: map<nat, Frame>, src: Source, segs: seq<Seg>, i: nat)
    requires i < |segs| && Loaded(pages, was, src, segs, i, PageCount(segs[i]))
    ensures Loaded(pages, was, src, segs, i + 1, 0)
  {
    hide PageGood, GoodAt;
    var j := i + 1;
    forall v | v in pages ensures LoadedPage(segs, j, 0, v) {
      assert LoadedPage(segs, i, PageCount(segs[i]), v);
      if !(exists a :: 0 <= a < i && Within(segs[a], v)) { assert Within(segs[i], v); }
    }
  }

  /** The pages in place and the next one are pages of the image. */
  lemma LoadedWithin(pages: map<nat, Frame>, was: map<nat, Frame>, src: Source, segs: seq<Seg>, i: nat, n: nat)
    requires SegsOk(segs) && Loaded(pages, was, src, segs, i, n)
    ensures pages.Keys <= ImagePages(segs)
    ensures i < |segs| && n < PageCount(segs[i]) ==> FirstPage(segs[i]) + n in ImagePages(segs)
  {
    hide SegGood;
    forall v | v in pages ensures v in ImagePages(segs) {
      assert LoadedPage(segs, i, n, v);
      if a :| 0 <= a < i && Within(segs[a], v) {
        SegmentBelow(segs[a], v);
      } else {
        assert Within(segs[i], v);
        SegmentBelow(segs[i], v);
      }
    }
    if i < |segs| && n < PageCount(segs[i]) {
      assert Within(segs[i], FirstPage(segs[i]) + n);
      SegmentBelow(segs[i], FirstPage(segs[i]) + n);
    }
  }

  /** With the stack page the image is complete. */
  lemma LoadedImage(pages: map<nat, Frame>, was: map<nat, Frame>, src: Source, segs: seq<Seg>, w: Frame)
    requires SegsOk(segs) && Loaded(pages, was, src, segs, |segs|, 0)
    ensures STACK !in pages && Image(pages[STACK := ZeroFrame()], was[STACK := w], src, segs)
  {
    hide PageGood, SegGood;
    forall a | 0 <= a < |segs| ensures !Within(segs[a], STACK) { assert SegOk(segs[a]); }
    assert !LoadedPage(segs, |segs|, 0, STACK);
    LoadedWithin(pages, was, src, segs, |segs|, 0);
    var more, held := pages[STACK := ZeroFrame()], was[STACK := w];
    forall a | 0 <= a < |segs| ensures SegGood(more, held, src, segs[a], PageCount(segs[a])) {
      SegGoodKept(pages, was, src, segs[a], PageCount(segs[a]), STACK, ZeroFrame(), w);
    }
    forall v | v in ImagePages(segs) ensures v in more {
      if v != STACK {
        assert InSegment(segs, v);
        var a :| 0 <= a < |segs| && Within(segs[a], v);
        SegPresent(pages, was, src, segs[a], v);
      }
    }
    assert more.Keys == ImagePages(segs);
  }

  lemma SegPresent(pages: map<nat, Frame>, was: map<nat, Frame>, src: Source, s: Seg, v: nat)
    requires SegGood(pages, was, src, s, PageCount(s)) && Within(s, v)
    ensures v in pages
  {
    assert GoodAt(pages, was, src, s, v - FirstPage(s));
  }
}
