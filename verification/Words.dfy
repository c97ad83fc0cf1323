/** Page-table words and page numbers of the amd64 build.

  A 64-bit table word is a natural number: frame number * 4096 + flags
  (`PAGE2PA(pp) | flag`; the low twelve bits of a physical page address are
  zero, so `|` is `+`).  A page number `v` is a virtual address / 4096; the
  nine-bit groups of the address are the successive remainders of `v` by 512.
*/
module Words {
  const PTE_P: nat := 0x1
  const PTE_W: nat := 0x2
  const PTE_U: nat := 0x4
  const PTE_COW: nat := 0x800

  /** PTE_U|PTE_W|PTE_P: a private, writable user page, and every table entry. */
  const UWP: nat := 7
  /** PTE_U|PTE_P|PTE_COW: a page shared by fork. */
  const UPC: nat := 0x805

  /** [UTEXT, USTACKTOP) as page numbers, and the one stack page at its top. */
  const TEXT: nat := 0x80000
  const TOP: nat := 0x8FFFF
  const STACK: nat := 0x8FFFE

  type Frame = f: seq<nat> | |f| == 512 witness seq(512, i => 0)

  function ZeroFrame(): (z: Frame)
    ensures forall i :: 0 <= i < 512 ==> z[i] == 0
  {
    seq(512, i => 0)
  }

  function FrameOf(w: nat): nat { w / 4096 }

  predicate Present(w: nat) { w % 2 == 1 }

  predicate Writable(w: nat) { w / 2 % 2 == 1 }

  function Entry(f: nat, flags: nat): nat { f * 4096 + flags }

  predicate InWindow(v: nat) { TEXT <= v < TOP }

  lemma EntryParts(f: nat, flags: nat)
    requires flags < 4096
    ensures FrameOf(Entry(f, flags)) == f
    ensures Present(Entry(f, flags)) <==> flags % 2 == 1
    ensures Writable(Entry(f, flags)) <==> flags / 2 % 2 == 1
  {
    EntryFrame(f, flags);
    EntryHalf(f, flags);
  }

  lemma EntryFrame(f: nat, flags: nat)
    requires flags < 4096
    ensures (f * 4096 + flags) / 4096 == f
  {
  }

  lemma EntryHalf(f: nat, flags: nat)
    ensures (f * 4096 + flags) / 2 == f * 2048 + flags / 2 && (f * 4096 + flags) % 2 == flags % 2
    ensures (f * 2048 + flags / 2) % 2 == flags / 2 % 2
  {
  }

  /** The shifts and masks of walk_page and walk_dir are the base-512 digits of
      the page number: bits 39, 30, 21 and 12 upward. */
  lemma ShiftsAreDigits(va: nat)
    ensures va / 0x1000 % 512 == va / 4096 % 512
    ensures va / 0x20_0000 % 512 == va / 4096 / 512 % 512
    ensures va / 0x4000_0000 % 512 == va / 4096 / 512 / 512 % 512
    ensures va / 0x80_0000_0000 % 512 == va / 4096 / 512 / 512 / 512 % 512
  {
    assert va / 0x20_0000 == va / 4096 / 512;
    assert va / 0x4000_0000 == va / 4096 / 512 / 512;
    assert va / 0x80_0000_0000 == va / 4096 / 512 / 512 / 512;
  }
}
