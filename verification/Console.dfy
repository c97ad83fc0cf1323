/** The text console of kernel/console.c: 80 x 24 cells of a character and an
    attribute byte, scrolled by an overlapping copy. */
module Console {
  import opened Disk

  const COLUMNS: nat := 80
  const LINES: nat := 24
  const CONSIZE: nat := 1920
  const ATTRIBUTE: byte := 7

  predicate Breaks(c: byte) { c == 10 || c == 13 }

  /** Everything ever put out, as rows: a line break ends a row, and so does its
      80th character.  The last row is the one being written. */
  function Rows(s: seq<byte>): (r: seq<seq<byte>>)
    ensures |r| > 0 && |r[|r| - 1]| < COLUMNS
    ensures forall i :: 0 <= i < |r| ==> |r[i]| <= COLUMNS
  {
    if s == [] then [[]] else
    var r, c := Rows(s[..|s| - 1]), s[|s| - 1];
    var done, row := r[..|r| - 1], r[|r| - 1];
    if Breaks(c) then r + [[]]
    else if |row| + 1 == COLUMNS then done + [row + [c], []]
    else done + [row + [c]]
  }

  /** What one more character does to the rows. */
  lemma RowsNext(s: seq<byte>, c: byte)
    ensures var r := Rows(s); var q := r[..|r| - 1] + [r[|r| - 1] + [c]];
      Rows(s + [c]) == if Breaks(c) then r + [[]] else if |r[|r| - 1]| + 1 == COLUMNS then q + [[]] else q
  {
    assert (s + [c])[..|s|] == s;
    var r := Rows(s);
    assert r[..|r| - 1] + [r[|r| - 1] + [c], []] == r[..|r| - 1] + [r[|r| - 1] + [c]] + [[]];
  }

  /** The output without its line breaks. */
  function Text(s: seq<byte>): seq<byte> {
    if s == [] then []
    else if Breaks(s[|s| - 1]) then Text(s[..|s| - 1])
    else Text(s[..|s| - 1]) + [s[|s| - 1]]
  }

  function Flat(r: seq<seq<byte>>): seq<byte> {
    if r == [] then [] else Flat(r[..|r| - 1]) + r[|r| - 1]
  }

  /** Wrapping loses and reorders nothing: the rows spell the output's text. */
  lemma {:induction false} RowsSpell(s: seq<byte>)
    ensures Flat(Rows(s)) == Text(s)
  {
    if s != [] {
      RowsSpell(s[..|s| - 1]);
      var r, c := Rows(s[..|s| - 1]), s[|s| - 1];
      var done, row := r[..|r| - 1], r[|r| - 1];
      var longer := done + [row + [c]];
      assert longer[..|longer| - 1] == done;
      assert Flat(longer) == Flat(done) + (row + [c]) == Flat(done) + row + [c];
      assert (r + [[]])[..|r|] == r && Flat(r + [[]]) == Flat(r);
      assert done + [row + [c], []] == longer + [[]] && (longer + [[]])[..|longer|] == longer;
    } else {
      assert Flat([[]]) == Flat([[]][..0]) + [];
    }
  }

  /** Nothing put out is one empty row. */
  lemma RowsNone()
    ensures Rows([]) == [[]]
  {
  }

  /** A line break, '\n' or '\r', starts afresh. */
  lemma {:induction false} RowsBreak(a: seq<byte>, c: byte, b: seq<byte>)
    requires c == 10 || c == 13
    ensures Rows(a + [c] + b) == Rows(a) + Rows(b)
    decreases |b|
  {
    hide Rows;
    RowsNone();
    if b == [] {
      assert a + [c] + b == a + [c];
      RowsNext(a, c);
    } else {
      var init, d := b[..|b| - 1], b[|b| - 1];
      RowsBreak(a, c, init);
      RowsNext(a + [c] + init, d);
      RowsNext(init, d);
      assert a + [c] + b == a + [c] + init + [d] && b == init + [d];
      RowsAfter(Rows(a), Rows(init), d);
    }
  }

  /** The last row of the second part is the last row of both. */
  lemma RowsAfter(p: seq<seq<byte>>, r: seq<seq<byte>>, d: byte)
    requires r != []
    ensures var t := p + r; var longer := p + (r[..|r| - 1] + [r[|r| - 1] + [d]]);
      && t[|t| - 1] == r[|r| - 1] && t + [[]] == p + (r + [[]])
      && t[..|t| - 1] + [t[|t| - 1] + [d]] == longer
      && longer + [[]] == p + (r[..|r| - 1] + [r[|r| - 1] + [d]] + [[]])
  {
  }

  /** The rows of a text of n characters without line breaks. */
  ghost predicate Cut(s: seq<byte>, r: seq<seq<byte>>) {
    && |r| == |s| / 80 + 1 && r[|s| / 80] == s[80 * (|s| / 80)..]
    && forall i :: 0 <= i < |s| / 80 ==> r[i] == s[80 * i..80 * i + 80]
  }

  /** It is cut every 80 characters. */
  lemma {:induction false} RowsCut(s: seq<byte>)
    requires forall i :: 0 <= i < |s| ==> s[i] != 10 && s[i] != 13
    ensures Cut(s, Rows(s))
    decreases |s|
  {
    hide Rows, Cut;
    if s != [] {
      var init, c := s[..|s| - 1], s[|s| - 1];
      assert s == init + [c];
      RowsCut(init);
      RowsNext(init, c);
      CutNext(init, c, Rows(init));
    } else {
      RowsNone();
      CutNone();
    }
  }

  lemma CutNone()
    ensures Cut([], [[]])
  {
  }

  lemma CutNext(s: seq<byte>, c: byte, r: seq<seq<byte>>)
    requires Cut(s, r)
    ensures var q := r[..|r| - 1] + [r[|r| - 1] + [c]];
      Cut(s + [c], if |r[|r| - 1]| + 1 == 80 then q + [[]] else q)
  {
    var n, t := |s| / 80, s + [c];
    assert t[80 * n..] == s[80 * n..] + [c];
    forall i | 0 <= i < n ensures t[80 * i..80 * i + 80] == s[80 * i..80 * i + 80] { }
    if |s| % 80 == 79 {
      assert |t| / 80 == n + 1 && t[80 * n..80 * n + 80] == t[80 * n..] && t[80 * (n + 1)..] == [];
    } else {
      assert |t| / 80 == n;
    }
  }

  /** The first row on the screen. */
  function Top(r: seq<seq<byte>>): nat { if |r| > LINES then |r| - LINES else 0 }

  predicate Written(r: seq<seq<byte>>, i: nat, x: nat) { i < |r| && x < |r[i]| }

  /** The two bytes of cell (x, y): row Top + y of the output, zeros where nothing is. */
  predicate CellAt(v: seq<byte>, r: seq<seq<byte>>, top: nat, y: nat, x: nat)
    requires |v| == CONSIZE * 2 && y < LINES && x < COLUMNS
  {
    && v[(x + y * COLUMNS) * 2] == (if Written(r, top + y, x) then r[top + y][x] else 0)
    && v[(x + y * COLUMNS) * 2 + 1] == (if Written(r, top + y, x) then ATTRIBUTE else 0)
  }

  ghost predicate Picture(v: seq<byte>, r: seq<seq<byte>>, top: nat) {
    |v| == CONSIZE * 2 &&
    forall y: nat, x: nat {:trigger CellAt(v, r, top, y, x)} :: y < LINES && x < COLUMNS ==> CellAt(v, r, top, y, x)
  }

  /** Of n rows the last 24 are on the screen, from the top as long as there is room: there
      character x of row i is seen, and right of a row's end nothing. */
  lemma RowSeen(v: seq<byte>, r: seq<seq<byte>>, i: nat, x: nat)
    requires Picture(v, r, Top(r)) && i < |r| <= i + 24 && x < 80
    ensures var y := if |r| <= 24 then i else i + 24 - |r|;
      && y < 24 && |v| == 2 * 80 * 24
      && v[2 * (80 * y + x)] == (if x < |r[i]| then r[i][x] else 0)
      && v[2 * (80 * y + x) + 1] == (if x < |r[i]| then 7 else 0)
  {
    assert CellAt(v, r, Top(r), i - Top(r), x);
  }

  /** memcpy within one array, byte by byte upward: right for overlapping regions
      when the destination lies below the source. */
  method Memcpy(v: array<byte>, dest: nat, src: nat, n: nat)
    requires dest <= src && src + n <= v.Length
    modifies v
    ensures v[dest..dest + n] == old(v[src..src + n])
    ensures v[..dest] == old(v[..dest]) && v[dest + n..] == old(v[dest + n..])
  {
    var k := 0;
    while k != n
      invariant k <= n
      invariant v[dest..dest + k] == old(v[src..src + k])
      invariant v[..dest] == old(v[..dest]) && v[dest + k..] == old(v[dest + k..])
    {
      assert v[src + k] == v[dest + k..][src - dest] == old(v[src + k]);
      v[dest + k] := v[src + k];
      k := k + 1;
    }
  }

  /** Scrolled by one row the picture starts one row later. */
  lemma ScrollCell(v: seq<byte>, w: seq<byte>, r: seq<seq<byte>>, top: nat, y: nat, x: nat)
    requires Picture(v, r, top) && |w| == CONSIZE * 2 && |r| <= top + LINES && y < LINES && x < COLUMNS
    requires w[..(CONSIZE - COLUMNS) * 2] == v[COLUMNS * 2..]
    requires forall i :: (CONSIZE - COLUMNS) * 2 <= i < CONSIZE * 2 ==> w[i] == 0
    ensures CellAt(w, r, top + 1, y, x)
  {
    if y + 1 < LINES {
      assert CellAt(v, r, top, y + 1, x);
      var i := (x + y * COLUMNS) * 2;
      assert w[i] == w[..(CONSIZE - COLUMNS) * 2][i] && w[i + 1] == w[..(CONSIZE - COLUMNS) * 2][i + 1];
    }
  }

  /** Putting a character at the cursor adds it to the last row. */
  lemma PutCell(v: seq<byte>, w: seq<byte>, r: seq<seq<byte>>, q: seq<seq<byte>>, c: byte, at: nat, y: nat, x: nat)
    requires Picture(v, r, Top(r)) && |r| > 0 && |r[|r| - 1]| < COLUMNS && y < LINES && x < COLUMNS
    requires q == r[..|r| - 1] + [r[|r| - 1] + [c]] && at == |r[|r| - 1]| + (|r| - 1 - Top(r)) * COLUMNS < CONSIZE
    requires w == v[at * 2 := c][at * 2 + 1 := ATTRIBUTE]
    ensures CellAt(w, q, Top(q), y, x)
  {
    assert CellAt(v, r, Top(r), y, x);
  }

  lemma BlankCell(v: seq<byte>, y: nat, x: nat)
    requires |v| == CONSIZE * 2 && y < LINES && x < COLUMNS && forall i :: 0 <= i < CONSIZE * 2 ==> v[i] == 0
    ensures CellAt(v, [[]], 0, y, x)
  {
  }

  class Screen {
    const video: array<byte>
    var xpos: nat
    var ypos: nat
    /** The output stream so far. */
    ghost var sent: seq<byte>

    /** The screen shows the last 24 of the rows r, and the cursor is at their end. */
    ghost predicate Shows(r: seq<seq<byte>>)
      reads this`xpos, this`ypos, video
    {
      && |r| > 0 && Picture(video[..], r, Top(r))
      && xpos == |r[|r| - 1]| && ypos == |r| - 1 - Top(r) < LINES
    }

    ghost predicate Valid()
      reads this, video
    {
      Shows(Rows(sent))
    }

    /** init_vga */
    constructor (memory: array<byte>)
      requires memory.Length == CONSIZE * 2
      modifies memory
      ensures Valid() && video == memory && sent == [] && xpos == 0 && ypos == 0
      ensures forall k :: 0 <= k < video.Length ==> video[k] == 0
    {
      video, xpos, ypos, sent := memory, 0, 0, [];
      new;
      for i := 0 to COLUMNS * LINES * 2
        invariant forall k :: 0 <= k < i ==> video[k] == 0
        invariant xpos == 0 && ypos == 0 && sent == []
      {
        video[i] := 0;
      }
      forall y: nat, x: nat | y < LINES && x < COLUMNS ensures CellAt(video[..], [[]], 0, y, x) {
        BlankCell(video[..], y, x);
      }
    }

    /** memcpy one row up, clear the last row. */
    method Scroll()
      requires video.Length == CONSIZE * 2
      modifies video
      ensures video[..(CONSIZE - COLUMNS) * 2] == old(video[COLUMNS * 2..])
      ensures forall i :: (CONSIZE - COLUMNS) * 2 <= i < CONSIZE * 2 ==> video[i] == 0
    {
      Memcpy(video, 0, COLUMNS * 2, (CONSIZE - COLUMNS) * 2);
      assert video[0..0 + (CONSIZE - COLUMNS) * 2] == video[..(CONSIZE - COLUMNS) * 2];
      assert old(video[COLUMNS * 2..COLUMNS * 2 + (CONSIZE - COLUMNS) * 2]) == old(video[COLUMNS * 2..]);
      for i := (CONSIZE - COLUMNS) * 2 to CONSIZE * 2
        invariant video[..(CONSIZE - COLUMNS) * 2] == old(video[COLUMNS * 2..])
        invariant forall k :: (CONSIZE - COLUMNS) * 2 <= k < i ==> video[k] == 0
      {
        video[i] := 0;
      }
    }

    /** The newline label of myputchar: a new row after the rows r so far. */
    method NewLine(ghost r: seq<seq<byte>>)
      requires Shows(r)
      modifies this`xpos, this`ypos, video
      ensures Shows(r + [[]])
    {
      ghost var q, top, v := r + [[]], Top(r), video[..];
      xpos := 0;
      ypos := ypos + 1;
      if ypos >= LINES {
        Scroll();
        forall y: nat, x: nat | y < LINES && x < COLUMNS ensures CellAt(video[..], q, Top(q), y, x) {
          ScrollCell(v, video[..], r, top, y, x);
          NewRowCell(video[..], r, top + 1, y, x);
        }
        xpos := 0;
        ypos := ypos - 1;
      } else {
        forall y: nat, x: nat | y < LINES && x < COLUMNS ensures CellAt(video[..], q, Top(q), y, x) {
          assert CellAt(video[..], r, top, y, x);
          NewRowCell(video[..], r, top, y, x);
        }
      }
    }

    /** The character and its attribute go to the cursor, which moves on. */
    method Place(c: byte, ghost r: seq<seq<byte>>, ghost q: seq<seq<byte>>)
      requires Shows(r) && |r[|r| - 1]| < COLUMNS && q == r[..|r| - 1] + [r[|r| - 1] + [c]]
      modifies this`xpos, video
      ensures Shows(q)
    {
      ghost var v, at := video[..], xpos + ypos * COLUMNS;
      video[(xpos + ypos * COLUMNS) * 2] := c;
      video[(xpos + ypos * COLUMNS) * 2 + 1] := ATTRIBUTE;
      assert video[..] == v[at * 2 := c][at * 2 + 1 := ATTRIBUTE];
      forall y: nat, x: nat | y < LINES && x < COLUMNS ensures CellAt(video[..], q, Top(q), y, x) {
        PutCell(v, video[..], r, q, c, at, y, x);
      }
      xpos := xpos + 1;
    }

    /** myputchar */
    method PutChar(c: byte)
      requires Valid()
      modifies this, video
      ensures Valid() && sent == old(sent) + [c]
    {
      hide Rows, Picture;
      ghost var r := Rows(sent);
      ghost var q := r[..|r| - 1] + [r[|r| - 1] + [c]];
      RowsNext(sent, c);
      sent := sent + [c];
      if Breaks(c) {
        NewLine(r);
        return;
      }
      Place(c, r, q);
      if xpos >= COLUMNS { NewLine(q); }
    }

    /** cons_write */
    method Write(buf: seq<byte>)
      requires Valid()
      modifies this, video
      ensures Valid() && sent == old(sent) + buf
    {
      hide Rows, Shows;
      var i := 0;
      while i < |buf|
        invariant i <= |buf| && Valid() && sent == old(sent) + buf[..i]
      {
        PutChar(buf[i]);
        i := i + 1;
      }
    }
  }

  /** An empty row shows nothing. */
  lemma NewRowCell(v: seq<byte>, r: seq<seq<byte>>, top: nat, y: nat, x: nat)
    requires |v| == CONSIZE * 2 && y < LINES && x < COLUMNS && CellAt(v, r, top, y, x)
    ensures CellAt(v, r + [[]], top, y, x)
  {
  }
}
