/** Where every character of a stream ends up, told without a cursor: by lines, cut at 80 columns. */
module ScreenLayout {
  import opened Memory
  import opened Screen

  type Lines = l: seq<seq<byte>> | |l| > 0 witness [[]]

  /** The stream cut at its newlines; the last line is the one still open. */
  function Cut(s: seq<byte>): Lines {
    if s == [] then [[]]
    else
      var lines := Cut(s[..|s| - 1]);
      var c := s[|s| - 1];
      if c == NEWLINE then lines + [[]] else lines[|lines| - 1 := lines[|lines| - 1] + [c]]
  }

  /** The rows a line takes: a full row is always followed by another one. */
  function Height(line: seq<byte>): nat {
    |line| / WIDTH + 1
  }

  function RowOf(lines: seq<seq<byte>>, i: nat): nat
    requires i <= |lines|
  {
    if i == 0 then 0 else RowOf(lines, i - 1) + Height(lines[i - 1])
  }

  /** What stands in column `x` of the `q`-th row of a line. */
  function Glyph(line: seq<byte>, q: nat, x: nat, color: byte): word {
    if q * WIDTH + x < |line| then Entry(line[q * WIDTH + x], color) else Entry(SPACE, color)
  }

  /** The cursor is behind the last character of the last line. */
  predicate CursorAtEnd(l: Layout, lines: Lines) {
    var last := lines[|lines| - 1];
    l.row == RowOf(lines, |lines| - 1) + |last| / WIDTH && l.column == |last| % WIDTH
  }

  /** The cell for column `x` of the `q`-th row of a line is there, and shows what stands there. */
  predicate LineShows(l: Layout, lines: Lines, i: nat, q: nat, x: nat)
    requires i < |lines| && x < WIDTH
  {
    var r := RowOf(lines, i) + q;
    r < |l.rows| && l.rows[r][x] == Glyph(lines[i], q, x, l.color)
  }

  ghost predicate CellsAreGlyphs(l: Layout, lines: Lines) {
    && (forall i, q, x :: 0 <= i < |lines| && 0 <= q < Height(lines[i]) && 0 <= x < WIDTH ==>
          LineShows(l, lines, i, q, x))
    && (forall r, x :: l.row < r < |l.rows| && 0 <= x < WIDTH ==> l.rows[r][x] == Entry(SPACE, l.color))
  }

  lemma {:induction false} RowsInOrder(lines: seq<seq<byte>>, i: nat, j: nat)
    requires i <= j <= |lines|
    ensures RowOf(lines, i) <= RowOf(lines, j)
  {
    if i < j {
      RowsInOrder(lines, i, j - 1);
    }
  }

  /** The rows of a line depend on the lines before it only. */
  lemma {:induction false} RowOfPrefix(a: seq<seq<byte>>, b: seq<seq<byte>>, i: nat)
    requires i <= |a| && i <= |b| && a[..i] == b[..i]
    ensures RowOf(a, i) == RowOf(b, i)
  {
    if i > 0 {
      assert a[..i - 1] == a[..i][..i - 1] == b[..i][..i - 1] == b[..i - 1];
      assert a[i - 1] == a[..i][i - 1] == b[..i][i - 1] == b[i - 1];
      RowOfPrefix(a, b, i - 1);
    }
  }

  ghost predicate LaidOut(l: Layout, lines: Lines) {
    l.Valid() && CursorAtEnd(l, lines) && l.row + 1 == RowOf(lines, |lines|) && CellsAreGlyphs(l, lines)
  }

  function Longer(lines: Lines, c: byte): Lines {
    lines[|lines| - 1 := lines[|lines| - 1] + [c]]
  }

  /** What putting a character other than a newline does, cell by cell. */
  lemma PutFacts(l: Layout, c: byte)
    requires l.Valid() && c != NEWLINE
    ensures var t := Put(l, c);
            && t.color == l.color && |l.rows| <= |t.rows|
            && t.row == (if l.column == WIDTH - 1 then l.row + 1 else l.row)
            && t.column == (if l.column == WIDTH - 1 then 0 else l.column + 1)
            && (forall r, x :: 0 <= r < |t.rows| && 0 <= x < WIDTH ==>
                  t.rows[r][x] == if r == l.row && x == l.column then Entry(c, l.color)
                                  else if r < |l.rows| then l.rows[r][x] else Entry(SPACE, l.color))
  {
  }

  lemma NextPlace(n: nat)
    ensures (n + 1) / WIDTH == if n % WIDTH == WIDTH - 1 then n / WIDTH + 1 else n / WIDTH
    ensures (n + 1) % WIDTH == if n % WIDTH == WIDTH - 1 then 0 else n % WIDTH + 1
  {
  }

  lemma RowsOfLonger(lines: Lines, c: byte)
    ensures forall i :: 0 <= i < |lines| ==> RowOf(Longer(lines, c), i) == RowOf(lines, i)
    ensures RowOf(Longer(lines, c), |lines|) == RowOf(lines, |lines| - 1) + Height(lines[|lines| - 1] + [c])
  {
    forall i | 0 <= i < |lines|
      ensures RowOf(Longer(lines, c), i) == RowOf(lines, i)
    {
      RowOfPrefix(lines, Longer(lines, c), i);
    }
  }

  lemma PutMovesCursor(l: Layout, lines: Lines, c: byte)
    requires LaidOut(l, lines) && c != NEWLINE
    ensures CursorAtEnd(Put(l, c), Longer(lines, c))
    ensures Put(l, c).row + 1 == RowOf(Longer(lines, c), |lines|)
  {
    hide CellsAreGlyphs, Put, RowOf;
    PutFacts(l, c);
    NextPlace(|lines[|lines| - 1]|);
    RowsOfLonger(lines, c);
  }

  /** A glyph of the last line after one more character. */
  lemma GlyphOfLonger(line: seq<byte>, c: byte, q: nat, x: nat, color: byte)
    requires x < WIDTH
    ensures Glyph(line + [c], q, x, color)
         == if q == |line| / WIDTH && x == |line| % WIDTH then Entry(c, color) else Glyph(line, q, x, color)
  {
  }

  /** In the last line, one cell changes. */
  lemma PutOnLastLine(l: Layout, lines: Lines, c: byte, q: nat, x: nat)
    requires LaidOut(l, lines) && c != NEWLINE
    requires q < Height(lines[|lines| - 1] + [c]) && x < WIDTH
    ensures var r := RowOf(lines, |lines| - 1) + q;
            r < |Put(l, c).rows| && Put(l, c).rows[r][x] == Glyph(lines[|lines| - 1] + [c], q, x, l.color)
  {
    PutMovesCursor(l, lines, c);
    hide Put, Glyph, RowOf, CellsAreGlyphs, Height;
    var last := lines[|lines| - 1];
    PutFacts(l, c);
    RowsOfLonger(lines, c);
    GlyphOfLonger(last, c, q, x, l.color);
    LastLineCell(l, lines, q, x);
  }

  /** Below the last line everything is blank, as its glyphs would be. */
  lemma LastLineCell(l: Layout, lines: Lines, q: nat, x: nat)
    requires LaidOut(l, lines) && x < WIDTH
    ensures var r := RowOf(lines, |lines| - 1) + q;
            r < |l.rows| ==> l.rows[r][x] == Glyph(lines[|lines| - 1], q, x, l.color)
    ensures RowOf(lines, |lines| - 1) + q >= |l.rows| ==> Glyph(lines[|lines| - 1], q, x, l.color) == Entry(SPACE, l.color)
  {
    hide RowOf, Glyph, Height;
    var n := |lines| - 1;
    LastRow(lines);
    if q < Height(lines[n]) {
      assert LineShows(l, lines, n, q, x);
    } else {
      BlankBelow(lines[n], q, x, l.color);
      assert RowOf(lines, n) + q > l.row;
    }
  }

  lemma BlankBelow(line: seq<byte>, q: nat, x: nat, color: byte)
    requires q >= Height(line)
    ensures Glyph(line, q, x, color) == Entry(SPACE, color)
  {
    assert |line| == (|line| / WIDTH) * WIDTH + |line| % WIDTH;
  }

  lemma LastRow(lines: Lines)
    ensures RowOf(lines, |lines|) == RowOf(lines, |lines| - 1) + Height(lines[|lines| - 1])
  {
  }

  /** One more character on the last line. */
  lemma PutOnLine(l: Layout, lines: Lines, c: byte)
    requires LaidOut(l, lines) && c != NEWLINE
    ensures LaidOut(Put(l, c), Longer(lines, c))
  {
    hide Put, Glyph, RowOf, Height, Entry;
    var n := |lines| - 1;
    var longer, t := Longer(lines, c), Put(l, c);
    PutFacts(l, c);
    PutMovesCursor(l, lines, c);
    RowsOfLonger(lines, c);
    LastRow(lines);
    forall i, q, x | 0 <= i < |longer| && 0 <= q < Height(longer[i]) && 0 <= x < WIDTH
      ensures LineShows(t, longer, i, q, x)
    {
      if i < n {
        RowsInOrder(lines, i + 1, n);
        RowOfNext(lines, i);
        assert LineShows(l, lines, i, q, x);
      } else {
        PutOnLastLine(l, lines, c, q, x);
      }
    }
  }

  lemma RowOfNext(lines: seq<seq<byte>>, i: nat)
    requires i < |lines|
    ensures RowOf(lines, i + 1) == RowOf(lines, i) + Height(lines[i])
  {
  }

  /** A newline opens the next line. */
  lemma PutNewline(l: Layout, lines: Lines)
    requires LaidOut(l, lines)
    ensures LaidOut(Put(l, NEWLINE), lines + [[]])
  {
    var n := |lines|;
    var longer := lines + [[]];
    var t := Put(l, NEWLINE);
    RowOfPrefix(lines, longer, n);
    assert RowOf(longer, n + 1) == RowOf(longer, n) + Height([]);
    forall i, q, x | 0 <= i < |longer| && 0 <= q < Height(longer[i]) && 0 <= x < WIDTH
      ensures LineShows(t, longer, i, q, x)
    {
      RowsInOrder(longer, i + 1, n + 1);
      if i < n {
        RowOfPrefix(lines, longer, i);
        RowsInOrder(lines, i + 1, n);
        assert LineShows(l, lines, i, q, x);
      }
    }
  }

  lemma StartLaidOut()
    ensures LaidOut(Start(), [[]])
  {
  }

  /** Every character of every stream stands where the lines say, and nothing else does. */
  lemma {:induction false} StreamLaidOut(s: seq<byte>)
    ensures LaidOut(PutAll(Start(), s), Cut(s))
  {
    if s == [] {
      StartLaidOut();
    } else {
      var front, c := s[..|s| - 1], s[|s| - 1];
      StreamLaidOut(front);
      if c == NEWLINE {
        PutNewline(PutAll(Start(), front), Cut(front));
      } else {
        PutOnLine(PutAll(Start(), front), Cut(front), c);
      }
    }
  }

  // ---------------------------------------------------------------- what is in the buffer

  /** Lines put together again. */
  function Text(lines: seq<seq<byte>>): seq<byte> {
    if lines == [] then []
    else if |lines| == 1 then lines[0]
    else Text(lines[..|lines| - 1]) + [10] + lines[|lines| - 1]
  }

  /** The lines are the stream, cut at its newlines and nowhere else. */
  lemma {:induction false} CutIsText(s: seq<byte>)
    ensures Text(Cut(s)) == s && forall i :: 0 <= i < |Cut(s)| ==> 10 !in Cut(s)[i]
  {
    if s != [] {
      var front, c := s[..|s| - 1], s[|s| - 1];
      CutIsText(front);
      var lines := Cut(front);
      var n := |lines| - 1;
      assert s == front + [c];
      if c == NEWLINE {
        assert (lines + [[]])[..n + 1] == lines;
        assert Text(lines + [[]]) == Text(lines) + [10] + [];
      } else {
        var longer := lines[n := lines[n] + [c]];
        assert longer[..n] == lines[..n];
        assert Text(longer) == Text(lines) + [c];
      }
    }
  }

  lemma {:induction false} RowOfHeights(lines: seq<seq<byte>>, i: nat)
    requires i < |lines|
    ensures RowOf(lines, 0) == 0 && RowOf(lines, i + 1) == RowOf(lines, i) + |lines[i]| / 80 + 1
  {
  }

  /** The two bytes of a cell: a character, and light grey on black. */
  predicate HoldsAt(buffer: seq<byte>, y: int, x: nat, c: byte)
    requires |buffer| == 4000
  {
    0 <= y < 25 && x < 80 && buffer[2 * (80 * y + x)] == c && buffer[2 * (80 * y + x) + 1] == 7
  }

  function CharAt(line: seq<byte>, n: nat): byte {
    if n < |line| then line[n] else 32
  }

  /**
    For every stream: what stands in column `x` of the `q`-th row of a line, a character or a
    space, is in its place among the last 25 rows if it is still one of them.
    */
  lemma BufferHoldsText(buffer: seq<byte>, s: seq<byte>, i: nat, q: nat, x: nat)
    requires |buffer| == 4000 && Shows(buffer, PutAll(Start(), s))
    requires i < |Cut(s)| && q <= |Cut(s)[i]| / 80 && x < 80
    ensures var last := RowOf(Cut(s), |Cut(s)|) - 1;
            var row, top := RowOf(Cut(s), i) + q, if last < 25 then 0 else last - 24;
            row >= top ==> HoldsAt(buffer, row - top, x, CharAt(Cut(s)[i], 80 * q + x))
  {
    StreamLaidOut(s);
    ColorStays(s);
    hide PutAll, Cut, Start;
    LinesHold(buffer, PutAll(Start(), s), Cut(s), i, q, x);
  }

  lemma LinesHold(buffer: seq<byte>, l: Layout, lines: Lines, i: nat, q: nat, x: nat)
    requires |buffer| == 4000 && LaidOut(l, lines) && l.color == 7 && Shows(buffer, l)
    requires i < |lines| && q < Height(lines[i]) && x < 80
    ensures var last := RowOf(lines, |lines|) - 1;
            var row, top := RowOf(lines, i) + q, if last < 25 then 0 else last - 24;
            row >= top ==> HoldsAt(buffer, row - top, x, CharAt(lines[i], 80 * q + x))
  {
    LastVisible(l, lines, i, q);
    assert LineShows(l, lines, i, q, x);
    var row := RowOf(lines, i) + q;
    GlyphIs(lines[i], q, x);
    hide RowOf, Shows, LaidOut, TopRow, HoldsAt, CharAt, Glyph, Entry;
    if row >= TopRow(l) {
      CellHolds(buffer, l, row - TopRow(l), x, CharAt(lines[i], 80 * q + x));
    }
  }

  lemma GlyphIs(line: seq<byte>, q: nat, x: nat)
    ensures Glyph(line, q, x, 7) == Entry(CharAt(line, 80 * q + x), 7)
  {
  }

  lemma CellHolds(buffer: seq<byte>, l: Layout, y: nat, x: nat, c: byte)
    requires |buffer| == 4000 && l.Valid() && Shows(buffer, l) && y < 25 && x < 80
    requires l.rows[TopRow(l) + y][x] == Entry(c, 7)
    ensures HoldsAt(buffer, y, x, c)
  {
    assert CellAt(buffer, y, x) == l.rows[TopRow(l) + y][x];
    EntryBytes(buffer, 80 * y + x, c, 7);
  }

  lemma LastVisible(l: Layout, lines: Lines, i: nat, q: nat)
    requires LaidOut(l, lines) && i < |lines| && q < Height(lines[i])
    ensures RowOf(lines, i) + q <= l.row && l.row == RowOf(lines, |lines|) - 1
    ensures TopRow(l) == (if l.row < 25 then 0 else l.row - 24)
  {
    RowsInOrder(lines, i + 1, |lines|);
    RowOfNext(lines, i);
  }

  lemma {:induction false} ColorStays(s: seq<byte>)
    ensures PutAll(Start(), s).color == 7
  {
    if s != [] {
      ColorStays(s[..|s| - 1]);
    }
  }
}
