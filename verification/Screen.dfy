/**
  The text screen: a fixed buffer of 25 rows of 80 cells that scrolls. It is a window onto a
  layout without a bottom, in which every row stays where it was written.
  */
module Screen {
  import opened Memory

  const WIDTH := 80
  const HEIGHT := 25
  const NEWLINE: byte := 10
  const SPACE: byte := 32
  const LIGHT_GREY_ON_BLACK: byte := 7

  /** `vga_entry` */
  function Entry(c: byte, color: byte): word {
    c + 256 * color
  }

  /** In memory, the character comes first and its colour second. */
  lemma EntryBytes(buffer: seq<byte>, k: nat, c: byte, color: byte)
    requires 2 * k + 1 < |buffer|
    ensures WordAt(buffer, k) == Entry(c, color) <==> buffer[2 * k] == c && buffer[2 * k + 1] == color
  {
  }

  // ---------------------------------------------------------------- the unbounded layout

  type Row = r: seq<word> | |r| == WIDTH witness seq(WIDTH, _ => 0)

  function BlankRow(color: byte): Row {
    seq(WIDTH, _ => Entry(SPACE, color))
  }

  /** Rows so far, never fewer than a screen, and the place of the next character. */
  datatype Layout = Layout(rows: seq<Row>, row: nat, column: nat, color: byte) {
    predicate Valid() {
      |rows| == (if row < HEIGHT then HEIGHT else row + 1) && column < WIDTH
    }
  }

  /** An empty screen. */
  function Start(): (l: Layout)
    ensures l.Valid()
  {
    Layout(seq(HEIGHT, _ => BlankRow(LIGHT_GREY_ON_BLACK)), 0, 0, LIGHT_GREY_ON_BLACK)
  }

  /** The layout with the character written, the cursor not moved. */
  function Written(l: Layout, c: byte): Layout
    requires l.Valid()
  {
    if c == NEWLINE then l
    else l.(rows := l.rows[l.row := l.rows[l.row][l.column := Entry(c, l.color)]])
  }

  /** The cursor moves on; a row it opens below the screen is blank, in the colour of that moment. */
  function Advanced(l: Layout, c: byte): Layout
    requires l.Valid()
  {
    if l.column + 1 == WIDTH || c == NEWLINE then
      l.(row := l.row + 1, column := 0,
         rows := if l.row + 1 < |l.rows| then l.rows else l.rows + [BlankRow(l.color)])
    else l.(column := l.column + 1)
  }

  function Put(l: Layout, c: byte): (t: Layout)
    requires l.Valid()
    ensures t.Valid()
  {
    Advanced(Written(l, c), c)
  }

  function PutAll(l: Layout, s: seq<byte>): (t: Layout)
    requires l.Valid()
    ensures t.Valid()
  {
    if s == [] then l else Put(PutAll(l, s[..|s| - 1]), s[|s| - 1])
  }

  /** The first row that the screen shows. */
  function TopRow(l: Layout): nat
    requires l.Valid()
  {
    |l.rows| - HEIGHT
  }

  function CellAt(buffer: seq<byte>, y: nat, x: nat): nat
    requires |buffer| == 2 * WIDTH * HEIGHT && y < HEIGHT && x < WIDTH
  {
    WordAt(buffer, y * WIDTH + x)
  }

  /** The buffer shows the last rows of the layout. */
  ghost predicate Shows(buffer: seq<byte>, l: Layout)
    requires |buffer| == 2 * WIDTH * HEIGHT && l.Valid()
  {
    forall y, x :: 0 <= y < HEIGHT && 0 <= x < WIDTH ==> CellAt(buffer, y, x) == l.rows[TopRow(l) + y][x]
  }

  class Terminal {
    const buffer: array<byte>
    var row: int
    var column: int
    var color: byte
    ghost var layout: Layout

    ghost predicate Valid()
      reads this, buffer
    {
      && buffer.Length == 2 * WIDTH * HEIGHT && layout.Valid()
      && Shows(buffer[..], layout)
      && row == layout.row - TopRow(layout) && column == layout.column && color == layout.color
    }

    /** `vga_init` */
    constructor ()
      ensures Valid() && fresh(buffer) && layout == Start()
    {
      buffer := new byte[2 * WIDTH * HEIGHT](_ => 0);
      row, column, color := 0, 0, LIGHT_GREY_ON_BLACK;
      layout := Start();
      new;
      for y := 0 to HEIGHT
        invariant row == column == 0 && color == LIGHT_GREY_ON_BLACK && layout == Start()
        invariant forall k :: 0 <= k < y * WIDTH ==> WordAt(buffer[..], k) == Entry(SPACE, LIGHT_GREY_ON_BLACK)
      {
        for x := 0 to WIDTH
          invariant row == column == 0 && color == LIGHT_GREY_ON_BLACK && layout == Start()
          invariant forall k :: 0 <= k < y * WIDTH + x ==> WordAt(buffer[..], k) == Entry(SPACE, LIGHT_GREY_ON_BLACK)
        {
          StoreWord(buffer, y * WIDTH + x, Entry(SPACE, color));
        }
      }
    }

    /** `vga_setcolor` */
    method SetColor(color: byte)
      requires Valid()
      modifies this
      ensures Valid() && layout == old(layout).(color := color)
    {
      this.color := color;
      layout := layout.(color := color);
    }

    /** `vga_setchar` */
    method SetChar(c: byte, color: byte, x: int, y: int)
      requires buffer.Length == 2 * WIDTH * HEIGHT && 0 <= x < WIDTH && 0 <= y < HEIGHT
      modifies buffer
      ensures WordAt(buffer[..], y * WIDTH + x) == Entry(c, color)
      ensures buffer[2 * (80 * y + x)] == c && buffer[2 * (80 * y + x) + 1] == color
      ensures forall k :: 0 <= k < WIDTH * HEIGHT && k != y * WIDTH + x ==>
        WordAt(buffer[..], k) == WordAt(old(buffer[..]), k)
    {
      StoreWord(buffer, y * WIDTH + x, Entry(c, color));
      EntryBytes(buffer[..], y * WIDTH + x, c, color);
    }

    /** `vga_scroll` */
    method Scroll()
      requires buffer.Length == 2 * WIDTH * HEIGHT && row <= HEIGHT
      modifies this`row, buffer
      ensures row == if old(row) < HEIGHT then old(row) else HEIGHT - 1
      ensures old(row) < HEIGHT ==> buffer[..] == old(buffer[..])
      ensures old(row) == HEIGHT ==> forall k :: 0 <= k < WIDTH * HEIGHT ==>
        WordAt(buffer[..], k)
        == if k < WIDTH * (HEIGHT - 1) then WordAt(old(buffer[..]), k + WIDTH) else Entry(SPACE, color)
    {
      if row >= HEIGHT {
        var temp := row - HEIGHT + 1;
        ForwardCopyMoves(buffer[..], 0, temp * WIDTH * 2, (HEIGHT - temp) * WIDTH * 2, (HEIGHT - temp) * WIDTH * 2);
        Memcpy(buffer, 0, temp * WIDTH * 2, (HEIGHT - temp) * WIDTH * 2);
        ghost var moved := buffer[..];
        assert forall k :: 0 <= k < WIDTH * (HEIGHT - 1) ==> WordAt(moved, k) == WordAt(old(buffer[..]), k + WIDTH);
        Memsetw(buffer, (HEIGHT - temp) * WIDTH, Entry(SPACE, color), WIDTH);
        row := HEIGHT - 1;
      }
    }

    /** `vga_putchar` */
    method PutChar(c: byte)
      requires Valid()
      modifies this, buffer
      ensures Valid() && layout == Put(old(layout), c)
      ensures 0 <= row < HEIGHT && 0 <= column < WIDTH
    {
      ghost var start := buffer[..];
      if c != NEWLINE {
        SetChar(c, color, column, row);
        CharShows(start, buffer[..], layout, c);
      }
      ghost var written := Written(layout, c);
      column := column + 1;
      if column == WIDTH || c == NEWLINE {
        row := row + 1;
        column := 0;
      }
      ghost var before := buffer[..];
      layout := Put(layout, c);
      Scroll();
      Scrolled(before, buffer[..], written, c);
    }

    /** `vga_write` */
    method Write(data: seq<byte>)
      requires Valid()
      modifies this, buffer
      ensures Valid() && layout == PutAll(old(layout), data)
    {
      var i := 0;
      while i < |data|
        invariant 0 <= i <= |data|
        invariant Valid() && layout == PutAll(old(layout), data[..i])
      {
        assert data[..i + 1][..i] == data[..i];
        PutChar(data[i]);
        i := i + 1;
      }
      assert data[..i] == data;
    }
  }

  /** A character stored at the cursor shows up in its cell alone. */
  lemma CharShows(before: seq<byte>, after: seq<byte>, l: Layout, c: byte)
    requires |before| == |after| == 2 * WIDTH * HEIGHT && l.Valid() && Shows(before, l) && c != NEWLINE
    requires var cursor := (l.row - TopRow(l)) * WIDTH + l.column;
             forall k :: 0 <= k < WIDTH * HEIGHT ==>
               WordAt(after, k) == if k == cursor then Entry(c, l.color) else WordAt(before, k)
    ensures Shows(after, Written(l, c))
  {
    var t := Written(l, c);
    forall y, x | 0 <= y < HEIGHT && 0 <= x < WIDTH
      ensures CellAt(after, y, x) == t.rows[TopRow(t) + y][x]
    {
      assert CellAt(before, y, x) == l.rows[TopRow(l) + y][x];
    }
  }

  /** Scrolling by a row, or not at all, follows the cursor down. */
  lemma Scrolled(before: seq<byte>, after: seq<byte>, l: Layout, c: byte)
    requires |before| == |after| == 2 * WIDTH * HEIGHT && l.Valid() && Shows(before, l)
    requires var opens := (l.column + 1 == WIDTH || c == NEWLINE) && l.row + 1 == |l.rows|;
             if !opens then after == before
             else forall k :: 0 <= k < WIDTH * HEIGHT ==>
               WordAt(after, k)
               == if k < WIDTH * (HEIGHT - 1) then WordAt(before, k + WIDTH) else Entry(SPACE, l.color)
    ensures Shows(after, Advanced(l, c))
  {
    var t := Advanced(l, c);
    if (l.column + 1 == WIDTH || c == NEWLINE) && l.row + 1 == |l.rows| {
      forall y, x | 0 <= y < HEIGHT && 0 <= x < WIDTH
        ensures CellAt(after, y, x) == t.rows[TopRow(t) + y][x]
      {
        if y < HEIGHT - 1 {
          assert CellAt(before, y + 1, x) == l.rows[TopRow(l) + (y + 1)][x];
        }
      }
    }
  }
}
