/** How many free blocks a whole file_write takes, told from the pointers before it. */
module Demand {
  import opened Disk
  import opened Writing

  /** The blocks that a transfer from offset up to end takes: one for each null pointer of the
      blocks that it touches, and one for the indirect block, if it is missing and a block
      behind it is touched. */
  ghost function Wanted(f: Fs, ino: nat, offset: nat, end: nat): nat {
    if offset < end then
      Holes(f, ino, offset / 4096, (end + 4095) / 4096)
      + if end > 40960 && Ptr(f, Direct(ino, 10)) == 0 then 1 else 0
    else 0
  }

  lemma {:induction false} HolesGrow(f: Fs, ino: nat, k: nat, m: nat, n: nat)
    requires k <= m <= n
    ensures Holes(f, ino, k, m) <= Holes(f, ino, k, n)
    decreases n - m
  {
    if m < n {
      HolesLast(f, ino, k, n - 1);
      HolesGrow(f, ino, k, m, n - 1);
    }
  }

  lemma WantedGrows(f: Fs, ino: nat, offset: nat, a: nat, b: nat)
    requires offset <= a <= b
    ensures Wanted(f, ino, offset, a) <= Wanted(f, ino, offset, b)
  {
    if offset < a { HolesGrow(f, ino, offset / 4096, (a + 4095) / 4096, (b + 4095) / 4096); }
  }

  /** The round at byte i, which ends within its block, wants what its block lacks. */
  lemma WantedMore(f: Fs, ino: nat, offset: nat, i: nat, m: nat)
    requires offset <= i && (offset < i ==> i % 4096 == 0) && 0 < m <= 4096 - i % 4096
    ensures Wanted(f, ino, offset, i + m) ==
      Wanted(f, ino, offset, i) + Hole(f, ino, i / 4096)
      + if i / 4096 >= 10 && Ptr(f, Direct(ino, 10)) == 0 && !(offset < i && i > 40960) then 1 else 0
  {
    hide Ptr, Holes, Hole;
    var k := i / 4096;
    assert (i + m + 4095) / 4096 == k + 1;
    HolesLast(f, ino, offset / 4096, k);
    assert i + m > 40960 <==> k >= 10;
    if offset < i {
      assert (i + 4095) / 4096 == k;
    } else {
      NoHoles(f, ino, k);
    }
  }

  lemma NoHoles(f: Fs, ino: nat, k: nat)
    ensures Holes(f, ino, k, k) == 0
  {
  }

  lemma {:induction false} HolesNone(f: Fs, ino: nat, k: nat, n: nat)
    ensures Holes(f, ino, k, n) == 0 <==> forall j {:trigger SlotAt(ino, j)} :: k <= j < n ==> Ptr(f, SlotAt(ino, j)) != 0
    decreases n - k
  {
    hide Ptr;
    if k < n { HolesNone(f, ino, k + 1, n); }
  }

  /** Nothing is wanted exactly where every block touched is allocated. */
  lemma WantsNothing(f: Fs, ino: nat, offset: nat, end: nat)
    requires end <= 4096 * MAXBLOCKS
    ensures Wanted(f, ino, offset, end) == 0 <==> Allocated(f, ino, offset, end)
  {
    if offset < end {
      var k, n := offset / 4096, (end + 4095) / 4096;
      HolesNone(f, ino, k, n);
      assert forall j: nat {:trigger Touched(offset, end, j)} :: Touched(offset, end, j) <==> k <= j < n;
      if Allocated(f, ino, offset, end) {
        forall j {:trigger SlotAt(ino, j)} | k <= j < n ensures Ptr(f, SlotAt(ino, j)) != 0 {
          assert Touched(offset, end, j);
        }
        assert Touched(offset, end, n - 1);
      }
    }
  }

  ghost predicate AheadAt(f0: Fs, f: Fs, ino: nat, offset: nat, i: nat, k: nat) {
    !Touched(offset, i, k) ==> SamePtr(f0, f, SlotAt(ino, k))
  }

  /** For lack of a free block a write of the bytes from offset to end stops at byte i: what
      comes before is covered, and the block of byte i, which is not allocated, is not. */
  ghost predicate StopsAt(f: Fs, ino: nat, offset: nat, end: nat, i: nat) {
    && offset <= i < end && Ptr(f, SlotAt(ino, i / 4096)) == 0
    && Wanted(f, ino, offset, i) <= |f.avail| < Wanted(f, ino, offset, i + 1)
  }

  lemma StopsShort(f: Fs, ino: nat, offset: nat, end: nat, i: nat)
    requires StopsAt(f, ino, offset, end, i)
    ensures |f.avail| < Wanted(f, ino, offset, end)
  {
    WantedGrows(f, ino, offset, i + 1, end);
  }

  /** After the rounds up to byte i: the blocks wanted so far are taken, and no pointer of a
      block that is still ahead has changed. */
  ghost predicate Spent(f0: Fs, f: Fs, ino: nat, offset: nat, i: nat) {
    && |f.avail| + Wanted(f0, ino, offset, i) == |f0.avail|
    && (Ptr(f, Direct(ino, 10)) == 0 <==> Ptr(f0, Direct(ino, 10)) == 0 && !(offset < i && i > 40960))
    && (forall k: nat {:trigger AheadAt(f0, f, ino, offset, i, k)} ::
          k < MAXBLOCKS ==> AheadAt(f0, f, ino, offset, i, k))
  }

  lemma SpentNothing(f: Fs, ino: nat, offset: nat)
    ensures Spent(f, f, ino, offset, offset)
  {
    hide Ptr;
  }

  /** The round at byte i takes what its block lacks. */
  lemma SpentRound(f0: Fs, f: Fs, ino: nat, offset: nat, i: nat, m: nat)
    requires Spent(f0, f, ino, offset, i) && i / 4096 < MAXBLOCKS
    requires offset <= i && (offset < i ==> i % 4096 == 0) && 0 < m <= 4096 - i % 4096
    ensures Wanted(f0, ino, offset, i + m) == Wanted(f0, ino, offset, i) + Lacking(f, ino, i / 4096)
    ensures SamePtr(f0, f, SlotAt(ino, i / 4096))
  {
    hide Ptr, Wanted;
    WantedMore(f0, ino, offset, i, m);
    assert AheadAt(f0, f, ino, offset, i, i / 4096);
  }

  lemma SpentMore(f0: Fs, f: Fs, g: Fs, ino: nat, offset: nat, i: nat, d: seq<byte>)
    requires Spent(f0, f, ino, offset, i) && i / 4096 < MAXBLOCKS && PutKeeps(f, g, ino, i, d)
    requires offset <= i && (offset < i ==> i % 4096 == 0) && 0 < |d| <= 4096 - i % 4096
    ensures Spent(f0, g, ino, offset, i + |d|)
  {
    hide Own, Ptr, Wanted, ContentPut, SameContent, Patch, View, Durable;
    var end := i + |d|;
    SpentRound(f0, f, ino, offset, i, |d|);
    forall k: nat | k < MAXBLOCKS ensures AheadAt(f0, g, ino, offset, end, k) {
      assert AheadAt(f0, f, ino, offset, i, k);
      if !Touched(offset, end, k) {
        assert k != i / 4096;
        assert SamePtr(f, g, SlotAt(ino, k));
      }
    }
  }
}
