/** The blocks that the file system reads, in order.  bread takes a frame for each and
    never gives it back. */
module FsReads {
  import opened Words
  import opened Vm
  import opened Kept
  import opened Bytes
  import opened Disk
  import opened Layout

  /** walk_block reads the indirect block. */
  ghost function WalkReads(f: Fs, ino: nat, k: nat): seq<nat> {
    if 10 <= k < MAXBLOCKS && Ptr(f, Direct(ino, 10)) != 0 then [Ptr(f, Direct(ino, 10))] else []
  }

  /** The way to block k of a file, and the block itself if there is one. */
  ghost function BlockReads(f: Fs, ino: nat, k: nat): seq<nat> {
    WalkReads(f, ino, k) + if Ptr(f, SlotAt(ino, k)) == 0 then [] else [Ptr(f, SlotAt(ino, k))]
  }

  /** file_read, from n bytes on: round by round, up to a block that is not there. */
  ghost function FileReads(f: Fs, ino: nat, offset: nat, count: nat, n: nat): seq<nat>
    decreases count - n
  {
    if n >= count then [] else
      var k := (offset + n) / 4096;
      BlockReads(f, ino, k)
      + if Ptr(f, SlotAt(ino, k)) == 0 then [] else
          FileReads(f, ino, offset, count, n + Min(4096 - (offset + n) % 4096, count))
  }

  /** The directory's blocks, from the i-th on. */
  ghost function DirReads(f: Fs, i: nat): seq<nat>
    requires 0 < |f.inodes|
    decreases f.inodes[0].size / 4096 - i
  {
    if i >= f.inodes[0].size / 4096 then [] else BlockReads(f, 0, i) + DirReads(f, i + 1)
  }

  /** walk_path: the first directory block, or all of them if the name is not in it. */
  ghost function PathReads(f: Fs, name: seq<byte>): seq<nat>
    requires 0 < |f.inodes|
  {
    if NameTaken(f, name) then BlockReads(f, 0, 0) else DirReads(f, 0)
  }

  /** The number of blocks that a round of a transfer at block k reads: the block, and the
      indirect block on the way to it. */
  function RoundReads(k: nat): nat { if k < 10 then 1 else 2 }

  /** All rounds of a transfer from n bytes on. */
  function TransferReads(offset: nat, count: nat, n: nat): nat
    decreases count - n
  {
    if n >= count then 0 else
      RoundReads((offset + n) / 4096) + TransferReads(offset, count, n + Min(4096 - (offset + n) % 4096, count))
  }

  ghost function Contents(f: Fs, list: seq<nat>): (c: seq<Frame>)
    ensures |c| == |list|
  {
    seq(|list|, i requires 0 <= i < |list| =>
      if list[i] < |f.blocks| then BlockFrame(f.blocks[list[i]]) else ZeroFrame())
  }

  /** t is s with the blocks of the list in frames of their own. */
  ghost predicate Has(s: Vm, t: Vm, f: Fs, list: seq<nat>) {
    Inv(s) && |s.free| >= |list| && t == KeepAllF(s, Contents(f, list))
  }

  lemma HasTaken(s: Vm, t: Vm, f: Fs, list: seq<nat>)
    requires Has(s, t, f, list)
    ensures Takes(s, t, |list|) && Inv(t) && |t.free| == |s.free| - |list|
  {
    hide Inv, KeepAllF;
    TakesParts(s, t, |list|);
  }

  lemma HasNothing(s: Vm, f: Fs)
    requires Inv(s)
    ensures Has(s, s, f, [])
  {
    hide Inv, Takes;
    assert Contents(f, []) == [];
    assert KeepAllF(s, []) == s;
  }

  lemma HasOne(s: Vm, t: Vm, f: Fs, b: nat)
    requires Inv(s) && s.free != [] && b < |f.blocks| && t == KeepF(s, BlockFrame(f.blocks[b]))
    ensures Has(s, t, f, [b])
  {
    hide Inv, BlockFrame, KeepF;
    assert Contents(f, [b]) == [BlockFrame(f.blocks[b])];
    KeepOne(s, BlockFrame(f.blocks[b]));
  }

  lemma HasSingle(s: Vm, t: Vm, f: Fs, list: seq<nat>)
    requires Has(s, t, f, list) && |list| == 1
    ensures Inv(s) && s.free != [] && t == KeepF(s, Contents(f, list)[0])
  {
    hide Inv, KeepF;
    assert Contents(f, list) == [Contents(f, list)[0]];
    KeepOne(s, Contents(f, list)[0]);
  }

  lemma HasMore(s: Vm, t: Vm, u: Vm, f: Fs, a: seq<nat>, b: seq<nat>)
    requires Has(s, t, f, a) && Has(t, u, f, b)
    ensures Has(s, u, f, a + b)
  {
    hide Inv, KeepAllF, BlockFrame;
    HasTaken(s, t, f, a);
    assert Contents(f, a + b) == Contents(f, a) + Contents(f, b);
    KeepMore(s, Contents(f, a), Contents(f, b));
  }

  /** Frame pp was free in s and is taken in t. */
  ghost predicate TakenNow(s: Vm, t: Vm, pp: nat) {
    && Sized(s) && Sized(t) && pp < |s.mem| == |t.mem| && s.role[pp].Free? && t.role[pp].Data?
  }

  lemma TakenFirst(s: Vm, t: Vm, f: Fs, b: nat)
    requires Has(s, t, f, [b])
    ensures s.free != [] && TakenNow(s, t, s.free[0])
  {
    var d := Contents(f, [b])[0];
    assert Contents(f, [b]) == [d];
    KeepOne(s, d);
    KeepParts(s, d);
    FirstFree(s);
    SizedAll(s);
    SizedAll(t);
  }

  /** file_read under way: the blocks of the list are read, and there are frames for the
      rest. */
  ghost predicate ReadSoFar(s: Vm, t: Vm, f: Fs, ino: nat, offset: nat, count: nat, n: nat, list: seq<nat>) {
    && Has(s, t, f, list) && |t.free| >= |FileReads(f, ino, offset, count, n)|
    && list + FileReads(f, ino, offset, count, n) == FileReads(f, ino, offset, count, 0)
  }

  lemma ReadStart(s: Vm, f: Fs, ino: nat, offset: nat, count: nat)
    requires Inv(s) && |s.free| >= |FileReads(f, ino, offset, count, 0)|
    ensures ReadSoFar(s, s, f, ino, offset, count, 0, [])
  {
    hide Inv, FileReads, Has;
    HasNothing(s, f);
  }

  lemma ReadNext(s: Vm, t: Vm, f: Fs, ino: nat, offset: nat, count: nat, n: nat, list: seq<nat>)
    requires ReadSoFar(s, t, f, ino, offset, count, n, list) && n < count
    ensures |t.free| >= |BlockReads(f, ino, (offset + n) / 4096)| && Inv(t)
  {
    hide Inv, BlockReads, Takes;
    HasTaken(s, t, f, list);
  }

  /** One block more; if it is not there, nothing after it is read. */
  lemma ReadMore(s: Vm, t: Vm, u: Vm, f: Fs, ino: nat, offset: nat, count: nat, n: nat, list: seq<nat>)
    requires ReadSoFar(s, t, f, ino, offset, count, n, list) && n < count
    requires Has(t, u, f, BlockReads(f, ino, (offset + n) / 4096))
    ensures var k, done := (offset + n) / 4096, list + BlockReads(f, ino, (offset + n) / 4096);
      if Ptr(f, SlotAt(ino, k)) == 0 then Has(s, u, f, FileReads(f, ino, offset, count, 0)) else
        ReadSoFar(s, u, f, ino, offset, count, n + Min(4096 - (offset + n) % 4096, count), done)
  {
    hide Inv, BlockReads, Has, Takes, Ptr;
    var r := BlockReads(f, ino, (offset + n) / 4096);
    HasMore(s, t, u, f, list, r);
    HasTaken(t, u, f, r);
    if Ptr(f, SlotAt(ino, (offset + n) / 4096)) == 0 {
      assert r + [] == r;
    } else {
      var rest := FileReads(f, ino, offset, count, n + Min(4096 - (offset + n) % 4096, count));
      assert list + (r + rest) == (list + r) + rest;
    }
  }

  lemma ReadEnd(s: Vm, t: Vm, f: Fs, ino: nat, offset: nat, count: nat, n: nat, list: seq<nat>)
    requires ReadSoFar(s, t, f, ino, offset, count, n, list)
    ensures Inv(t) && (n >= count ==> Has(s, t, f, FileReads(f, ino, offset, count, 0)))
  {
    hide Inv, Has, Takes;
    HasTaken(s, t, f, list);
    if n >= count { assert list + [] == list; }
  }
}
