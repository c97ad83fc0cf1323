/** The layout of an ELF64 file's headers, field by field (the "ELF Header" and "Program
    Header" sections of chapters 4 and 5 of the System V gABI), as an encoder: what exec and
    create_proc read of the bytes it writes are the fields that went in. */
module ElfFormat {
  import opened Disk
  import opened Elf
  import Bytes

  /** n bytes of x, least significant first. */
  function Encode(x: nat, n: nat): (b: seq<byte>)
    ensures |b| == n
  {
    if n == 0 then [] else [(x % 256) as byte] + Encode(x / 256, n - 1)
  }

  function Limit(n: nat): (l: nat)
    ensures l > 0
  {
    if n == 0 then 1 else 256 * Limit(n - 1)
  }

  datatype Ehdr = Ehdr(ident: seq<byte>, kind: nat, machine: nat, version: nat, entry: nat, phoff: nat, shoff: nat,
                       flags: nat, ehsize: nat, phentsize: nat, phnum: nat, shentsize: nat, shnum: nat, shstrndx: nat)

  datatype Phdr = Phdr(kind: nat, flags: nat, offset: nat, vaddr: nat, paddr: nat, filesz: nat, memsz: nat, align: nat)

  /** The fields that are read fit their places; of the others only what fits is stored. */
  predicate EhdrOk(h: Ehdr) { |h.ident| == 16 && h.phoff < Limit(8) && h.phnum < Limit(2) }

  predicate PhdrOk(h: Phdr) {
    && h.kind < Limit(4) && h.offset < Limit(8) && h.vaddr < Limit(8)
    && h.filesz < Limit(8) && h.memsz < Limit(8)
  }

  function EhdrBytes(h: Ehdr): (b: seq<byte>)
    ensures |h.ident| == 16 ==> |b| == EHDR
  {
    h.ident + Encode(h.kind, 2) + Encode(h.machine, 2) + Encode(h.version, 4) + Encode(h.entry, 8) + Encode(h.phoff, 8)
    + Encode(h.shoff, 8) + Encode(h.flags, 4) + Encode(h.ehsize, 2) + Encode(h.phentsize, 2) + Encode(h.phnum, 2)
    + Encode(h.shentsize, 2) + Encode(h.shnum, 2) + Encode(h.shstrndx, 2)
  }

  function PhdrBytes(h: Phdr): (b: seq<byte>)
    ensures |b| == 56
  {
    Encode(h.kind, 4) + Encode(h.flags, 4) + Encode(h.offset, 8) + Encode(h.vaddr, 8) + Encode(h.paddr, 8)
    + Encode(h.filesz, 8) + Encode(h.memsz, 8) + Encode(h.align, 8)
  }

  function TableBytes(hs: seq<Phdr>): (b: seq<byte>)
    ensures |b| == 56 * |hs|
  {
    if hs == [] then [] else PhdrBytes(hs[0]) + TableBytes(hs[1..])
  }

  /** A number is read where its bytes lie. */
  lemma {:induction false} LeEncode(b: seq<byte>, at: nat, x: nat, n: nat)
    requires at + n <= |b| && b[at..at + n] == Encode(x, n) && x < Limit(n)
    ensures Le(b, at, n) == x
    decreases n
  {
    if n > 0 {
      var t := b[at..at + n];
      assert b[at] == t[0] == (x % 256) as byte;
      assert b[at + 1..at + 1 + (n - 1)] == t[1..] == Encode(x / 256, n - 1);
      LeEncode(b, at + 1, x / 256, n - 1);
    }
  }

  /** It is the bytes of a memory word, in the order of their addresses. */
  lemma {:induction false} EncodeIsBytes(x: nat, n: nat, j: nat)
    requires j < n
    ensures Encode(x, n)[j] as nat == Bytes.ByteOf(x, j)
  {
    if j > 0 { EncodeIsBytes(x / 256, n - 1, j - 1); }
  }

  lemma Part(a: seq<byte>, m: seq<byte>, z: seq<byte>)
    ensures (a + m + z)[|a|..|a| + |m|] == m
  {
  }

  /** A field that lies at i in a record e is read at p + i where the record lies at p. */
  lemma FieldRead(b: seq<byte>, p: nat, e: seq<byte>, i: nat, x: nat, n: nat)
    requires p + |e| <= |b| && b[p..p + |e|] == e && i + n <= |e| && e[i..i + n] == Encode(x, n) && x < Limit(n)
    ensures Le(b, p + i, n) == x
  {
    hide Encode, Limit, Le;
    var f, g := b[p + i..p + i + n], e[i..i + n];
    forall j | 0 <= j < n ensures f[j] == g[j] { assert b[p..p + |e|][i + j] == e[i + j]; }
    assert f == g;
    LeEncode(b, p + i, x, n);
  }

  /** One program header, read from wherever it lies. */
  lemma PhdrRead(b: seq<byte>, p: nat, h: Phdr)
    requires p + 56 <= |b| && b[p..p + 56] == PhdrBytes(h) && PhdrOk(h)
    ensures Le(b, p, 4) == h.kind && Le(b, p + 8, 8) == h.offset && Le(b, p + 16, 8) == h.vaddr
    ensures Le(b, p + 32, 8) == h.filesz && Le(b, p + 40, 8) == h.memsz
  {
    hide Encode, Limit, Le;
    var e := PhdrBytes(h);
    FieldRead(b, p, e, 0, h.kind, 4);
    FieldRead(b, p, e, 8, h.offset, 8);
    FieldRead(b, p, e, 16, h.vaddr, 8);
    FieldRead(b, p, e, 32, h.filesz, 8);
    FieldRead(b, p, e, 40, h.memsz, 8);
  }

  lemma {:induction false} TableAt(hs: seq<Phdr>, i: nat)
    requires i < |hs|
    ensures TableBytes(hs)[56 * i..56 * i + 56] == PhdrBytes(hs[i])
  {
    hide PhdrBytes;
    if i > 0 {
      var t := TableBytes(hs[1..]);
      TableAt(hs[1..], i - 1);
      assert TableBytes(hs)[56 * i..56 * i + 56] == t[56 * (i - 1)..56 * (i - 1) + 56];
    }
  }

  lemma EhdrRead(b: seq<byte>, h: Ehdr)
    requires |b| >= EHDR && EhdrOk(h) && b[..EHDR] == EhdrBytes(h)
    ensures Phoff(b) == h.phoff && Phnum(b) == h.phnum && b[..16] == h.ident
  {
    hide Encode, Limit, Le;
    var e := EhdrBytes(h);
    FieldRead(b, 0, e, 32, h.phoff, 8);
    FieldRead(b, 0, e, 56, h.phnum, 2);
    assert b[..16] == e[..16] == h.ident;
  }

  /** The fields of a program header that are read. */
  function SegOf(h: Phdr): Seg { Seg(h.kind, h.offset, h.vaddr, h.filesz, h.memsz) }

  lemma SegRead(b: seq<byte>, p: nat, hs: seq<Phdr>, i: nat)
    requires p + 56 * |hs| <= |b| && b[p..p + 56 * |hs|] == TableBytes(hs) && i < |hs| && PhdrOk(hs[i])
    requires |b| >= EHDR && HeadersFit(b) && Phoff(b) == p && Phnum(b) == |hs|
    ensures SegAt(b, i) == SegOf(hs[i])
  {
    hide Limit, Le, PhdrBytes, TableBytes, PhdrOk;
    TableAt(hs, i);
    SlicePart(b, p, TableBytes(hs), 56 * i);
    PhdrRead(b, p + 56 * i, hs[i]);
  }

  /** Wherever the table lies, Segs lists the fields of its program headers in order, and the
      magic is that of the identification. */
  lemma HeadersRead(b: seq<byte>, h: Ehdr, hs: seq<Phdr>)
    requires |b| >= EHDR && EhdrOk(h) && b[..EHDR] == EhdrBytes(h) && h.phnum == |hs|
    requires h.phoff + 56 * |hs| <= |b| && b[h.phoff..h.phoff + 56 * |hs|] == TableBytes(hs)
    requires forall i :: 0 <= i < |hs| ==> PhdrOk(hs[i])
    ensures HeadersFit(b) && |Segs(b)| == |hs|
    ensures forall i :: 0 <= i < |hs| ==>
      Segs(b)[i] == Seg(hs[i].kind, hs[i].offset, hs[i].vaddr, hs[i].filesz, hs[i].memsz)
    ensures Magic(b) <==> h.ident[..4] == [0x7f, 'E' as byte, 'L' as byte, 'F' as byte]
  {
    hide Limit, Le, EhdrBytes, PhdrBytes, TableBytes, Phoff, Phnum, PhdrOk, SegAt;
    EhdrRead(b, h);
    MagicRead(b, h.ident);
    forall i | 0 <= i < |hs| ensures SegAt(b, i) == SegOf(hs[i]) { SegRead(b, h.phoff, hs, i); }
  }

  lemma MagicRead(b: seq<byte>, ident: seq<byte>)
    requires |b| >= EHDR && |ident| == 16 && b[..16] == ident
    ensures Magic(b) <==> ident[..4] == [0x7f, 'E' as byte, 'L' as byte, 'F' as byte]
  {
    assert b[0] == ident[0] && b[1] == ident[1] && b[2] == ident[2] && b[3] == ident[3];
    assert ident[..4] == [b[0], b[1], b[2], b[3]];
  }

  lemma SlicePart(b: seq<byte>, p: nat, t: seq<byte>, i: nat)
    requires p + |t| <= |b| && b[p..p + |t|] == t && i + 56 <= |t|
    ensures b[p + i..p + i + 56] == t[i..i + 56]
  {
    var f, g := b[p + i..p + i + 56], t[i..i + 56];
    forall j | 0 <= j < 56 ensures f[j] == g[j] { assert b[p..p + |t|][i + j] == t[i + j]; }
  }

  /** Reading undoes writing: ELF header, anything, the table, anything. */
  lemma HeadersRoundTrip(h: Ehdr, gap: seq<byte>, hs: seq<Phdr>, rest: seq<byte>)
    requires EhdrOk(h) && h.phoff == EHDR + |gap| && h.phnum == |hs|
    requires forall i :: 0 <= i < |hs| ==> PhdrOk(hs[i])
    ensures var b := EhdrBytes(h) + gap + TableBytes(hs) + rest;
      && |b| >= EHDR && HeadersFit(b) && Segs(b) == seq(|hs|, i requires 0 <= i < |hs| => SegOf(hs[i]))
  {
    hide Limit, Le, EhdrBytes, PhdrBytes, TableBytes, Phoff, Phnum, PhdrOk, Segs, HeadersFit;
    var e, t := EhdrBytes(h), TableBytes(hs);
    var b := e + gap + t + rest;
    assert b[..EHDR] == e;
    Part(e + gap, t, rest);
    HeadersRead(b, h, hs);
  }
}
