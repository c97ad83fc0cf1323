/** Directory blocks: 256 entries of 16 bytes, a 16-bit inode number and a name of
    14 bytes; an entry with an empty name is vacant. */
module Directory {
  import opened Disk

  const ENTRIES: nat := 256

  function EntryIno(b: Block, e: nat): nat
    requires e < ENTRIES
  {
    Le16(b, 8 * e)
  }

  function EntryName(b: Block, e: nat): (n: seq<byte>)
    requires e < ENTRIES
    ensures |n| == 14
  {
    b[16 * e + 2..16 * e + 16]
  }

  /** The C string in the 14-byte field is `name`. */
  predicate Spells(field: seq<byte>, name: seq<byte>)
    requires |field| == 14
  {
    |name| < 14 && field[..|name|] == name && field[|name|] == 0
  }

  predicate IsName(name: seq<byte>) { 0 < |name| < 14 && 0 !in name }

  predicate Named(b: Block, e: nat, name: seq<byte>)
    requires e < ENTRIES
  {
    Spells(EntryName(b, e), name)
  }

  predicate Vacant(b: Block, e: nat)
    requires e < ENTRIES
  {
    Named(b, e, [])
  }

  /** r is the first entry called `name`, -1 if there is none. */
  ghost predicate FirstNamed(b: Block, name: seq<byte>, r: int) {
    && (forall e: nat :: e < ENTRIES && (r < 0 || e < r) ==> !Named(b, e, name))
    && (r == -1 || (0 <= r < ENTRIES && Named(b, r, name)))
  }

  /** r is the first vacant entry, -1 if the block is full. */
  ghost predicate FirstVacant(b: Block, r: int) {
    && (forall e: nat :: e < ENTRIES && (r < 0 || e < r) ==> !Vacant(b, e))
    && (r == -1 || (0 <= r < ENTRIES && Vacant(b, r)))
  }

  function Zeros(n: nat): (z: seq<byte>)
    ensures |z| == n && forall i :: 0 <= i < n ==> z[i] == 0
  {
    seq(n, i => 0)
  }

  /** pdir->ino = ino; strncpy(pdir->name, name, 14) */
  function EntryBytes(ino: nat, name: seq<byte>): (d: seq<byte>)
    requires ino < 0x1_0000 && IsName(name)
    ensures |d| == 16
  {
    [(ino % 256) as byte, (ino / 256) as byte] + name + Zeros(14 - |name|)
  }

  function WithEntry(b: Block, e: nat, ino: nat, name: seq<byte>): Block
    requires e < ENTRIES && ino < 0x1_0000 && IsName(name)
  {
    Patch(b, 16 * e, EntryBytes(ino, name))
  }

  lemma EntryPut(b: Block, e: nat, ino: nat, name: seq<byte>)
    requires e < ENTRIES && ino < 0x1_0000 && IsName(name)
    ensures var w := WithEntry(b, e, ino, name);
      EntryIno(w, e) == ino && EntryName(w, e) == name + Zeros(14 - |name|) && Named(w, e, name) && !Vacant(w, e)
  {
    var w, d := WithEntry(b, e, ino, name), EntryBytes(ino, name);
    assert forall i :: 0 <= i < 16 ==> w[16 * e + i] == d[i];
    assert EntryName(w, e) == d[2..];
    assert d[2..] == name + Zeros(14 - |name|);
  }

  lemma EntryKept(b: Block, e: nat, ino: nat, name: seq<byte>, x: nat)
    requires e < ENTRIES && ino < 0x1_0000 && IsName(name) && x < ENTRIES && x != e
    ensures var w := WithEntry(b, e, ino, name);
      EntryIno(w, x) == EntryIno(b, x) && EntryName(w, x) == EntryName(b, x)
  {
    var w := WithEntry(b, e, ino, name);
    assert w[16 * x..16 * x + 16] == b[16 * x..16 * x + 16];
    assert EntryName(w, x) == w[16 * x..16 * x + 16][2..] && EntryName(b, x) == b[16 * x..16 * x + 16][2..];
    assert w[16 * x] == w[16 * x..16 * x + 16][0] && w[16 * x + 1] == w[16 * x..16 * x + 16][1];
    assert b[16 * x] == b[16 * x..16 * x + 16][0] && b[16 * x + 1] == b[16 * x..16 * x + 16][1];
  }

  /** A new name is found exactly where it was entered. */
  lemma EntryFound(b: Block, e: nat, ino: nat, name: seq<byte>)
    requires e < ENTRIES && ino < 0x1_0000 && IsName(name) && FirstNamed(b, name, -1)
    ensures FirstNamed(WithEntry(b, e, ino, name), name, e)
    ensures EntryIno(WithEntry(b, e, ino, name), e) == ino
  {
    EntryPut(b, e, ino, name);
    forall x: nat | x < e ensures !Named(WithEntry(b, e, ino, name), x, name) {
      EntryKept(b, e, ino, name, x);
      assert !Named(b, x, name);
    }
  }

  /** strcmp of a name field with a file name, byte by byte; 0 is equal. */
  method StrCmp(field: seq<byte>, name: seq<byte>) returns (r: int)
    requires |field| == 14 && IsName(name)
    ensures r == 0 <==> Spells(field, name)
  {
    var s2 := name + [0];
    var i := 0;
    while field[i] != 0 || s2[i] != 0
      invariant 0 <= i <= |name| && field[..i] == name[..i]
      decreases |name| - i
    {
      if field[i] != s2[i] {
        return if field[i] as int - s2[i] as int != 0 then 1 else -1;
      }
      assert field[..i + 1] == field[..i] + [field[i]] && name[..i + 1] == name[..i] + [name[i]];
      i := i + 1;
    }
    return 0;
  }

  /** The scan of one directory block by walk_path: entries from the first on, as
      many as the counter j, which is not reset between blocks, still allows. */
  method FindName(b: Block, name: seq<byte>, j0: nat) returns (r: int, j: nat)
    requires IsName(name) && j0 <= ENTRIES
    ensures j0 == 0 ==> FirstNamed(b, name, r)
    ensures r < 0 ==> r == -1 && j == ENTRIES
    ensures r >= 0 ==> r < ENTRIES - j0 && Named(b, r, name)
  {
    j := j0;
    var pdir := 0;
    while j < ENTRIES
      invariant j0 <= j <= ENTRIES && pdir == j - j0 && forall e: nat :: e < pdir ==> !Named(b, e, name)
    {
      var c := StrCmp(EntryName(b, pdir), name);
      if c == 0 { return pdir, j; }
      pdir := pdir + 1;
      j := j + 1;
    }
    return -1, j;
  }

  /** The scan of one directory block by alloc_file, likewise. */
  method FindVacant(b: Block, j0: nat) returns (r: int, j: nat)
    requires j0 <= ENTRIES
    ensures j0 == 0 ==> FirstVacant(b, r)
    ensures r < 0 ==> r == -1 && j == ENTRIES
    ensures r >= 0 ==> r < ENTRIES - j0 && Vacant(b, r)
  {
    j := j0;
    var pdir := 0;
    while j < ENTRIES
      invariant j0 <= j <= ENTRIES && pdir == j - j0 && forall e: nat :: e < pdir ==> !Vacant(b, e)
    {
      if EntryName(b, pdir)[0] == 0 { return pdir, j; }
      pdir := pdir + 1;
      j := j + 1;
    }
    return -1, j;
  }
}
