/** How far file_read and file_write go: each round moves to the end of the block
    but at most `count` bytes, the requested count and not what is left of it. */
module Transfer {
  import opened Disk

  /** The bytes moved in all by a transfer that has moved n so far. */
  function Moved(offset: nat, count: nat, n: nat): (t: nat)
    ensures t >= n
    decreases count - n
  {
    if n >= count then n
    else Moved(offset, count, n + Min(4096 - (offset + n) % 4096, count))
  }

  /** From a block boundary on it goes block by block. */
  lemma {:induction false} MovedAligned(offset: nat, count: nat, n: nat)
    requires n < count && (offset + n) % 4096 == 0
    ensures count >= 4096 ==>
      count <= Moved(offset, count, n) < count + 4096 && (offset + Moved(offset, count, n)) % 4096 == 0
    ensures count < 4096 ==> Moved(offset, count, n) == n + count
    decreases count - n
  {
    if count >= 4096 && n + 4096 < count { MovedAligned(offset, count, n + 4096); }
  }

  /** The request stays in one block, or ends on a block boundary. */
  predicate Exact(offset: nat, count: nat) {
    offset % 4096 + count <= 4096 || (offset + count) % 4096 == 0
  }

  lemma NextBoundary(o: nat, r: nat)
    requires r == 4096 - o % 4096
    ensures (o + r) % 4096 == 0
  {
  }

  /** The end of what is moved, when the first block does not hold it all. */
  lemma MovedPastFirst(offset: nat, count: nat, rest: nat)
    requires rest == 4096 - offset % 4096 && count > rest
    ensures var t := Moved(offset, count, 0);
      if count >= 4096 then count <= t < count + 4096 && (offset + t) % 4096 == 0
      else t == rest + count
  {
    assert Moved(offset, count, 0) == Moved(offset, count, Min(rest, count));
    NextBoundary(offset, rest);
    MovedAligned(offset, count, rest);
  }

  lemma SameBoundary(a: nat, b: nat)
    requires a % 4096 == 0 && b % 4096 == 0 && a <= b < a + 4096
    ensures a == b
  {
  }

  lemma BetweenBoundaries(a: nat, b: nat)
    requires a % 4096 == 0 && a < b < a + 4096
    ensures b % 4096 != 0
  {
  }

  /** The transfer law: at least the count, less than one block more, and exactly
      the count if and only if the request is exact. */
  lemma TransferLaw(offset: nat, count: nat)
    ensures count <= Moved(offset, count, 0) < count + 4096
    ensures Moved(offset, count, 0) == count <==> Exact(offset, count)
  {
    var rest := 4096 - offset % 4096;
    if count > rest {
      MovedPastFirst(offset, count, rest);
      if count >= 4096 {
        if Exact(offset, count) { SameBoundary(offset + count, offset + Moved(offset, count, 0)); }
      } else {
        NextBoundary(offset, rest);
        BetweenBoundaries(offset + rest, offset + count);
      }
    } else if count > 0 {
      assert Moved(offset, count, 0) == Moved(offset, count, count);
    }
  }
}
