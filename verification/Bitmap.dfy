/** Free bitmaps as both mkxxx and the kernel keep them: one bit a number, 1 is
    free, in 1024 words of 32 bits. */
module Bitmap {
  const WORDS: nat := 1024
  const BITS: nat := 0x8000
  const ALL_ONES: nat := 0xFFFF_FFFF

  /** w & (1 << i) is not zero. */
  predicate Bit(w: nat, i: nat) {
    if i == 0 then w % 2 == 1 else Bit(w / 2, i - 1)
  }

  /** w & ~(1 << i) */
  function Clear(w: nat, i: nat): (r: nat)
    ensures r <= w
  {
    if i == 0 then w - w % 2 else 2 * Clear(w / 2, i - 1) + w % 2
  }

  lemma {:induction false} ClearIs(w: nat, i: nat, j: nat)
    ensures Bit(Clear(w, i), j) <==> i != j && Bit(w, j)
  {
    if i > 0 && j > 0 { ClearIs(w / 2, i - 1, j - 1); }
  }

  /** n ones in a row. */
  function Ones(n: nat): nat { if n == 0 then 0 else 2 * Ones(n - 1) + 1 }

  lemma {:induction false} OnesHave(n: nat, i: nat)
    requires i < n
    ensures Bit(Ones(n), i)
  {
    if i > 0 { OnesHave(n - 1, i - 1); }
  }

  lemma OnesFour(n: nat)
    ensures Ones(n + 4) == 16 * Ones(n) + 15
  {
    assert Ones(n + 2) == 4 * Ones(n) + 3;
  }

  lemma OnesAll()
    ensures Ones(32) == ALL_ONES
  {
    OnesFour(0);
    OnesFour(4);
    OnesFour(8);
    OnesFour(12);
    OnesFour(16);
    OnesFour(20);
    OnesFour(24);
    OnesFour(28);
  }

  /** is_blkempty */
  predicate IsFree(w: seq<nat>, no: nat)
    requires |w| == WORDS && no < BITS
  {
    Bit(w[no / 32], no % 32)
  }

  /** set_bitmap: clear the bit. */
  function Taken(w: seq<nat>, no: nat): (t: seq<nat>)
    requires |w| == WORDS && no < BITS
    ensures |t| == WORDS
  {
    w[no / 32 := Clear(w[no / 32], no % 32)]
  }

  /** Taking a number clears its bit and no other. */
  lemma TakenIs(w: seq<nat>, no: nat, k: nat)
    requires |w| == WORDS && no < BITS && k < BITS
    ensures IsFree(Taken(w, no), k) <==> k != no && IsFree(w, k)
  {
    hide Bit, Clear;
    if k / 32 == no / 32 { ClearIs(w[no / 32], no % 32, k % 32); }
  }

  /** The numbers that are free. */
  ghost function FreeSet(w: seq<nat>): set<nat>
    requires |w| == WORDS
  {
    set no: nat | no < BITS && IsFree(w, no)
  }

  lemma TakenSet(w: seq<nat>, no: nat)
    requires |w| == WORDS && no < BITS
    ensures FreeSet(Taken(w, no)) == FreeSet(w) - {no}
  {
    hide IsFree, Taken;
    forall k: nat | k < BITS ensures IsFree(Taken(w, no), k) <==> k != no && IsFree(w, k) {
      TakenIs(w, no, k);
    }
  }

  ghost predicate IsLowest(free: set<nat>, m: nat) {
    m in free && forall k :: k in free ==> m <= k
  }

  lemma {:induction false} HasLowest(free: set<nat>)
    requires free != {}
    ensures exists m :: IsLowest(free, m)
  {
    var x :| x in free;
    var below := set k | k in free && k < x;
    if below == {} {
      assert forall k :: k in free && k < x ==> k in below;
      assert IsLowest(free, x);
    } else {
      assert x in free - below && below <= free;
      HasLowest(below);
      var m :| IsLowest(below, m);
      assert forall k :: k in free && k < x ==> k in below;
      assert IsLowest(free, m);
    }
  }

  /** The number handed out next. */
  ghost function Lowest(free: set<nat>): (m: nat)
    requires free != {}
    ensures IsLowest(free, m)
  {
    HasLowest(free);
    var m :| IsLowest(free, m);
    m
  }

  /** get_free_no */
  method GetFreeNo(w: array<nat>) returns (r: int)
    requires w.Length == WORDS
    ensures r == (if FreeSet(w[..]) == {} then -1 else Lowest(FreeSet(w[..]))) && r < BITS
  {
    hide IsFree;
    for no := 0 to BITS
      invariant forall k: nat :: k < no ==> !IsFree(w[..], k)
    {
      if IsFree(w[..], no) {
        assert no in FreeSet(w[..]);
        return no;
      }
    }
    return -1;
  }

  /** set_bitmap */
  method SetBitmap(w: array<nat>, no: nat)
    requires w.Length == WORDS && no < BITS
    modifies w
    ensures FreeSet(w[..]) == old(FreeSet(w[..])) - {no}
  {
    ghost var s := w[..];
    TakenSet(s, no);
    w[no / 32] := Clear(w[no / 32], no % 32);
    assert w[..] == Taken(s, no);
  }

  /** memset(bitmap, 0xFF, BLKSIZE): every number is free. */
  method AllFree() returns (w: array<nat>)
    ensures fresh(w) && w.Length == WORDS
    ensures forall no: nat :: no in FreeSet(w[..]) <==> no < BITS
  {
    hide Ones, Bit;
    w := new nat[WORDS](i => ALL_ONES);
    OnesAll();
    forall no: nat | no < BITS ensures IsFree(w[..], no) { OnesHave(32, no % 32); }
  }
}
