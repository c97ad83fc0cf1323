/** The bytes of memory words and frames. */
module Bytes {
  import opened Words
  import opened Disk

  /** Byte j of a word, the lowest first. */
  function ByteOf(w: nat, j: nat): nat {
    if j == 0 then w % 256 else ByteOf(w / 256, j - 1)
  }

  /** The word with its first |d| bytes replaced. */
  function PutBytes(w: nat, d: seq<byte>): nat {
    if d == [] then w else d[0] as nat + 256 * PutBytes(w / 256, d[1..])
  }

  lemma {:induction false} PutBytesAt(w: nat, d: seq<byte>, j: nat)
    ensures ByteOf(PutBytes(w, d), j) == if j < |d| then d[j] as nat else ByteOf(w, j)
  {
    if d != [] && j > 0 { PutBytesAt(w / 256, d[1..], j - 1); }
  }

  lemma {:induction false} ZeroBytes(j: nat)
    ensures ByteOf(0, j) == 0
  {
    if j > 0 { ZeroBytes(j - 1); }
  }

  function FrameByte(f: Frame, o: nat): nat
    requires o < 4096
  {
    ByteOf(f[o / 8], o % 8)
  }

  function Slice(d: seq<byte>, at: nat): seq<byte> { d[Min(at, |d|)..Min(at + 8, |d|)] }

  /** The frame after |d| bytes are copied to its start; the rest stays. */
  function WithBytes(f: Frame, d: seq<byte>): (g: Frame)
    ensures forall i :: 0 <= i < 512 ==> g[i] == PutBytes(f[i], Slice(d, 8 * i))
  {
    seq(512, i requires 0 <= i < 512 => PutBytes(f[i], Slice(d, 8 * i)))
  }

  lemma WithBytesAt(f: Frame, d: seq<byte>, o: nat)
    requires o < 4096
    ensures FrameByte(WithBytes(f, d), o) == if o < |d| then d[o] as nat else FrameByte(f, o)
  {
    hide ByteOf, PutBytes;
    var i := o / 8;
    PutBytesAt(f[i], Slice(d, 8 * i), o % 8);
    if o < |d| { assert Slice(d, 8 * i)[o % 8] == d[o]; }
  }

  lemma ZeroFrameBytes(o: nat)
    requires o < 4096
    ensures FrameByte(ZeroFrame(), o) == 0
  {
    ZeroBytes(o % 8);
  }

  /** A frame that a disk block was read into. */
  function BlockFrame(b: Block): Frame { WithBytes(ZeroFrame(), b) }

  lemma BlockFrameAt(b: Block, o: nat)
    requires o < 4096
    ensures FrameByte(BlockFrame(b), o) == b[o] as nat
  {
    hide FrameByte, WithBytes;
    WithBytesAt(ZeroFrame(), b, o);
  }
}
