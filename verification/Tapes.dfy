/**
 The text console as a tape: an ever longer sequence of cells, of which the screen shows the
 last rows.  Scrolling appends a blank row; nothing on the tape ever moves.
 */
module Tapes {
  import opened Words
  import opened Quotients

  datatype Cell = Cell(letter: u8, color: u8)

  datatype Cursor = Hidden | Shown(cell: Cell)

  /** A console position on its tape; `width` cells make a row. */
  datatype Console = Console(cells: seq<Cell>, pos: nat)

  function Blanks(n: nat): (b: seq<Cell>)
    ensures |b| == n && forall i :: 0 <= i < n ==> b[i] == Cell(0, 0)
  {
    seq(n, _ => Cell(0, 0))
  }

  /** Makes room for the cell at the position: a blank row is added when the tape is full. */
  function Room(t: Console, width: nat): seq<Cell> {
    if t.pos == |t.cells| then t.cells + Blanks(width) else t.cells
  }

  /** The tape after scrolling: a blank row, with the cursor at its start if it is shown. */
  function Scrolled(cells: seq<Cell>, width: nat, cursor: Cursor): (s: seq<Cell>)
    requires width > 0
    ensures |s| == |cells| + width
  {
    var s := cells + Blanks(width);
    if cursor.Shown? then s[|cells| := cursor.cell] else s
  }

  /** VgaAutoEntry: the next cell is written. */
  function Write(t: Console, width: nat, c: Cell): (t': Console)
    requires width > 0 && t.pos <= |t.cells|
    ensures t'.pos <= |t'.cells|
  {
    Console(Room(t, width)[t.pos := c], t.pos + 1)
  }

  /** The part of VgaPutChar that follows the input: the cursor cell gets its room and is drawn. */
  function Follow(t: Console, width: nat, cursor: Cursor): (t': Console)
    requires width > 0 && t.pos <= |t.cells|
    ensures t'.pos < |t'.cells|
  {
    var room := Room(t, width);
    Console(if cursor.Shown? then room[t.pos := cursor.cell] else room, t.pos)
  }

  /** The driver's way to make room: scrolling may draw the cursor where the next cell goes. */
  function Made(t: Console, width: nat, cursor: Cursor): (cells: seq<Cell>)
    requires width > 0 && t.pos <= |t.cells|
    ensures t.pos < |cells|
  {
    if t.pos == |t.cells| then Scrolled(t.cells, width, cursor) else t.cells
  }

  /** A cursor drawn while scrolling is overwritten, or is the cursor that is drawn next anyway. */
  lemma MadeRoom(t: Console, width: nat, cursor: Cursor, c: Cell)
    requires width > 0 && t.pos <= |t.cells|
    ensures Made(t, width, cursor)[t.pos := c] == Room(t, width)[t.pos := c]
    ensures cursor.Hidden? ==> Made(t, width, cursor) == Room(t, width)
  {
  }

  /** `cells` are those of the line `t`, perhaps with the room for its next cell already made. */
  ghost predicate RoomMade(t: Console, width: nat, cursor: Cursor, cells: seq<Cell>)
    requires width > 0 && t.pos <= |t.cells|
  {
    cells == t.cells || cells == Made(t, width, cursor)
  }

  /** Making the room early changes nothing for the next cell. */
  lemma RoomEarly(t: Console, width: nat, cursor: Cursor, cells: seq<Cell>, c: Cell)
    requires width > 0 && t.pos <= |t.cells| && RoomMade(t, width, cursor, cells)
    ensures t.pos <= |cells| && Made(Console(cells, t.pos), width, cursor) == Made(t, width, cursor)
    ensures Write(Console(cells, t.pos), width, c) == Write(t, width, c)
  {
    MadeRoom(t, width, cursor, c);
  }

  /** The cells of a line of text in one color; a newline has none. */
  function LineCells(text: seq<u8>, color: u8): (cs: seq<Cell>)
    ensures 10 !in text ==> |cs| == |text| && forall i :: 0 <= i < |text| ==> cs[i] == Cell(text[i], color)
    decreases |text|
  {
    if text == [] then []
    else
      var n := |text| - 1;
      LineCells(text[..n], color) + if text[n] == 10 then [] else [Cell(text[n], color)]
  }

  /** VgaPutChar */
  function Put(t: Console, width: nat, following: bool, cursor: Cursor, c: Cell): (t': Console)
    requires width > 0 && t.pos <= |t.cells|
    ensures t'.pos <= |t'.cells|
  {
    if following then Follow(Write(t, width, c), width, cursor) else Write(t, width, c)
  }

  /** Where the character and the cursor are. */
  lemma PutShown(t: Console, width: nat, following: bool, cursor: Cursor, c: Cell)
    requires width > 0 && t.pos <= |t.cells|
    ensures var t' := Put(t, width, following, cursor, c);
            && t.pos < |t'.cells| && t'.cells[t.pos] == c
            && (following && cursor.Shown? ==> t'.pos < |t'.cells| && t'.cells[t'.pos] == cursor.cell)
  {
  }

  function PutAll(t: Console, width: nat, following: bool, cursor: Cursor, cs: seq<Cell>): (t': Console)
    requires width > 0 && t.pos <= |t.cells|
    ensures t'.pos <= |t'.cells|
    decreases |cs|
  {
    if cs == [] then t
    else Put(PutAll(t, width, following, cursor, cs[..|cs| - 1]), width, following, cursor, cs[|cs| - 1])
  }

  lemma PutAllStep(t: Console, width: nat, following: bool, cursor: Cursor, cs: seq<Cell>, c: Cell)
    requires width > 0 && t.pos <= |t.cells|
    ensures PutAll(t, width, following, cursor, cs + [c]) ==
            Put(PutAll(t, width, following, cursor, cs), width, following, cursor, c)
  {
    assert (cs + [c])[..|cs + [c]| - 1] == cs;
  }

  lemma PutAllNext(t: Console, width: nat, following: bool, cursor: Cursor, cs: seq<Cell>, i: nat)
    requires width > 0 && t.pos <= |t.cells| && i < |cs|
    ensures PutAll(t, width, following, cursor, cs[..i + 1]) ==
            Put(PutAll(t, width, following, cursor, cs[..i]), width, following, cursor, cs[i])
  {
    assert cs[..i + 1] == cs[..i] + [cs[i]];
    PutAllStep(t, width, following, cursor, cs[..i], cs[i]);
  }

  /** The last `n` cells: what the screen shows. */
  function Window(cells: seq<Cell>, n: nat): (w: seq<Cell>)
    requires n <= |cells|
    ensures |w| == n
  {
    cells[|cells| - n..]
  }

  lemma WindowScroll(cells: seq<Cell>, n: nat, width: nat)
    requires width <= n <= |cells|
    ensures Window(cells + Blanks(width), n) == Window(cells, n)[width..] + Blanks(width)
  {
  }

  lemma WindowPoke(cells: seq<Cell>, n: nat, i: nat, c: Cell)
    requires i < n <= |cells|
    ensures Window(cells[|cells| - n + i := c], n) == Window(cells, n)[i := c]
  {
  }

  function NextColumn(width: nat, x: nat): (x': nat)
    requires width > 0 && x <= width
    ensures x' <= width
  {
    if x == width then 1 else x + 1
  }

  /** The column behind `n` characters of a line that starts in column `col`; a full row is left late. */
  function ColumnAfter(width: nat, col: nat, n: nat): (x: nat)
    requires width > 0 && col <= width
    ensures x <= width
  {
    if n == 0 then col
    else NextColumn(width, ColumnAfter(width, col, n - 1))
  }

  /** In closed form. */
  lemma {:induction false} ColumnIs(width: nat, col: nat, n: nat)
    requires width > 0 && col <= width
    ensures ColumnAfter(width, col, n) == if n == 0 then col else (col + n - 1) % width + 1
    decreases n
  {
    if n > 1 {
      ColumnIs(width, col, n - 1);
      ModStep(col + n - 2, width);
    } else if n == 1 {
      assert ColumnAfter(width, col, 1) == if ColumnAfter(width, col, 0) == width then 1 else col + 1;
      if col == width {
        QuotientUnique(col, width, 1, 0);
      } else {
        QuotientUnique(col, width, 0, col);
      }
    }
  }

  /** A line of text from the position of `t` on, and the column behind it. */
  function LineOf(t: Console, width: nat, text: seq<u8>, color: u8): (line: Console)
    requires width > 0 && t.pos <= |t.cells|
    ensures line.pos <= |line.cells|
  {
    PutAll(t, width, false, Hidden, LineCells(text, color))
  }

  function ColumnOf(width: nat, col: nat, text: seq<u8>, color: u8): (x: nat)
    requires width > 0 && col <= width
    ensures x <= width && (10 !in text ==> x == ColumnAfter(width, col, |text|))
  {
    ColumnAfter(width, col, |LineCells(text, color)|)
  }

  lemma LineCellsNext(text: seq<u8>, color: u8, i: nat)
    requires i < |text|
    ensures LineCells(text[..i + 1], color) ==
            LineCells(text[..i], color) + if text[i] == 10 then [] else [Cell(text[i], color)]
  {
    assert text[..i + 1][..i] == text[..i];
  }

  lemma LineOfNext(t: Console, width: nat, col: nat, text: seq<u8>, color: u8, i: nat)
    requires width > 0 && t.pos <= |t.cells| && i < |text| && col <= width
    ensures LineOf(t, width, text[..i + 1], color) ==
            if text[i] == 10 then LineOf(t, width, text[..i], color)
            else Write(LineOf(t, width, text[..i], color), width, Cell(text[i], color))
    ensures ColumnOf(width, col, text[..i + 1], color) ==
            if text[i] == 10 then ColumnOf(width, col, text[..i], color)
            else NextColumn(width, ColumnOf(width, col, text[..i], color))
  {
    var cs := LineCells(text[..i], color);
    LineCellsNext(text, color, i);
    if text[i] == 10 {
      assert LineCells(text[..i + 1], color) == cs;
    } else {
      PutAllStep(t, width, false, Hidden, cs, Cell(text[i], color));
    }
  }

  /**
   After a line whose text stopped at `line` in column `x`, the console stands at the start of the
   next row, which has its room, and the cursor is drawn there if it is shown.
   */
  ghost predicate LineDone(line: Console, x: nat, width: nat, cursor: Cursor, t: Console)
    requires width > 0
  {
    && t.pos + x == line.pos + width && t.pos <= |line.cells|
    && t == Follow(Console(line.cells, t.pos), width, cursor)
  }

  lemma ModStep(x: nat, d: nat)
    requires d > 0
    ensures (x + 1) % d == if x % d == d - 1 then 0 else x % d + 1
  {
    var q := x / d;
    assert x == d * q + x % d;
    if x % d == d - 1 {
      assert d * (q + 1) == d * q + d;
      QuotientUnique(x + 1, d, q + 1, 0);
    } else {
      QuotientUnique(x + 1, d, q, x % d + 1);
    }
  }

  // ----- what is on the tape

  /** The cell a tape shows at index `j` after `cs` was put at the position of `t`. */
  function CellAfter(t: Console, following: bool, cursor: Cursor, cs: seq<Cell>, j: nat): Cell {
    var end := t.pos + |cs|;
    if t.pos <= j < end then cs[j - t.pos]
    else if j == end && following && cs != [] && cursor.Shown? then cursor.cell
    else if j < |t.cells| then t.cells[j]
    else Cell(0, 0)
  }

  /**
   Everything on the tape after any number of characters: the characters in order from the
   starting position on, the cursor behind them when it is followed and shown, and elsewhere
   what was there before or blanks.
   */
  lemma {:induction false} TapeContents(t: Console, width: nat, following: bool, cursor: Cursor, cs: seq<Cell>, j: nat)
    requires width > 0 && t.pos <= |t.cells|
    ensures var t' := PutAll(t, width, following, cursor, cs);
            && t'.pos == t.pos + |cs| && |t.cells| <= |t'.cells|
            && (j < |t'.cells| ==> t'.cells[j] == CellAfter(t, following, cursor, cs, j))
    decreases |cs|
  {
    if cs != [] {
      var front := cs[..|cs| - 1];
      TapeContents(t, width, following, cursor, front, j);
      var t1 := PutAll(t, width, following, cursor, front);
      PutContents(t1, width, following, cursor, cs[|cs| - 1], j);
      CellStep(t, t1, following, cursor, cs, j);
    }
  }

  lemma CellStep(t: Console, t1: Console, following: bool, cursor: Cursor, cs: seq<Cell>, j: nat)
    requires cs != [] && t1.pos == t.pos + |cs| - 1 && t1.pos <= |t1.cells| && |t.cells| <= |t1.cells|
    requires j < |t1.cells| ==> t1.cells[j] == CellAfter(t, following, cursor, cs[..|cs| - 1], j)
    ensures CellAfter(t1, following, cursor, [cs[|cs| - 1]], j) == CellAfter(t, following, cursor, cs, j)
  {
  }

  /** One character changes its own cell and the cursor's; new cells are blank. */
  lemma PutContents(t: Console, width: nat, following: bool, cursor: Cursor, c: Cell, j: nat)
    requires width > 0 && t.pos <= |t.cells|
    ensures var t' := Put(t, width, following, cursor, c);
            && t'.pos == t.pos + 1 && |t.cells| <= |t'.cells|
            && (j < |t'.cells| ==> t'.cells[j] == CellAfter(t, following, cursor, [c], j))
  {
  }

  /** The rows a tape of `rows` rows needs for a position, when the position must lie on it. */
  function RowsFor(pos: nat, width: nat, rows: nat): nat
    requires width > 0
  {
    if pos / width + 1 > rows then pos / width + 1 else rows
  }

  lemma RowStep(pos: nat, width: nat, rows: nat)
    requires width > 0 && pos < RowsFor(pos, width, rows) * width
    ensures var before := RowsFor(pos, width, rows) * width;
            && RowsFor(pos + 1, width, rows) * width == (if pos + 1 == before then before + width else before)
            && pos + 1 < RowsFor(pos + 1, width, rows) * width
  {
    var n := RowsFor(pos, width, rows);
    if pos + 1 == n * width {
      QuotientUnique(pos + 1, width, n, 0);
      assert (n + 1) * width == n * width + width;
    } else {
      BelowRows(pos + 1, width, n);
      QuotientMonotone(pos, pos + 1, width);
    }
  }

  /**
   Following the input, the tape always ends with the row of the position: it grows by as many
   rows as the characters run past its end.
   */
  lemma {:induction false} RowsFollowing(t: Console, width: nat, cursor: Cursor, cs: seq<Cell>, rows: nat)
    requires width > 0 && |t.cells| == rows * width && t.pos < |t.cells|
    ensures var t' := PutAll(t, width, true, cursor, cs);
            && t'.pos == t.pos + |cs| && t'.pos < |t'.cells|
            && |t'.cells| == RowsFor(t.pos + |cs|, width, rows) * width
    decreases |cs|
  {
    if cs == [] {
      BelowRows(t.pos, width, rows);
    } else {
      var front := cs[..|cs| - 1];
      RowsFollowing(t, width, cursor, front, rows);
      RowStep(t.pos + |front|, width, rows);
      PutLength(PutAll(t, width, true, cursor, front), width, cursor, cs[|cs| - 1]);
    }
  }

  /** One followed character lengthens the tape exactly when it fills the last cell. */
  lemma PutLength(t: Console, width: nat, cursor: Cursor, c: Cell)
    requires width > 0 && t.pos < |t.cells|
    ensures var t' := Put(t, width, true, cursor, c);
            && t'.pos == t.pos + 1 && t'.pos < |t'.cells|
            && |t'.cells| == if t.pos + 1 == |t.cells| then |t.cells| + width else |t.cells|
  {
  }

  lemma BelowRows(pos: nat, width: nat, rows: nat)
    requires width > 0 && pos < rows * width
    ensures pos / width < rows
  {
    var q: int := pos / width;
    assert width * (q - rows) == width * q - rows * width;
    if q > rows {
      MulAtLeast(width, q - rows);
    }
  }

  /** The rows that have left a screen of `height` rows at the top after `n` followed characters. */
  function ScrolledRows(width: nat, height: nat, n: nat): nat
    requires width > 0 && height > 0
  {
    if n / width > height - 1 then n / width - (height - 1) else 0
  }

  /**
   From the top left of a screen of `height` rows, the window has moved by
   max(0, n/width - (height-1)) rows after `n` characters whose cursor is followed.
   */
  lemma ScrolledCells(t: Console, width: nat, height: nat, cursor: Cursor, cs: seq<Cell>)
    requires width > 0 && height > 0 && |t.cells| == height * width && t.pos == 0 && t.pos < |t.cells|
    ensures |PutAll(t, width, true, cursor, cs).cells| == (ScrolledRows(width, height, |cs|) + height) * width
  {
    RowsFollowing(t, width, cursor, cs, height);
  }

  /** `t'` stands behind `cs` put at the position of `t`, and each of its cells is what belongs there. */
  ghost predicate Contents(t: Console, following: bool, cursor: Cursor, cs: seq<Cell>, t': Console) {
    && t'.pos == t.pos + |cs| && |t.cells| <= |t'.cells|
    && forall j :: 0 <= j < |t'.cells| ==> t'.cells[j] == CellAfter(t, following, cursor, cs, j)
  }

  lemma TapeHolds(t: Console, width: nat, following: bool, cursor: Cursor, cs: seq<Cell>)
    requires width > 0 && t.pos <= |t.cells|
    ensures Contents(t, following, cursor, cs, PutAll(t, width, following, cursor, cs))
  {
    var t' := PutAll(t, width, following, cursor, cs);
    TapeContents(t, width, following, cursor, cs, 0);
    forall j | 0 <= j < |t'.cells|
      ensures t'.cells[j] == CellAfter(t, following, cursor, cs, j)
    {
      TapeContents(t, width, following, cursor, cs, j);
    }
  }

  /** What a screen that held `before` shows after `cs` was put from its top left and `gone` cells left it. */
  ghost predicate ShowsFrom(before: seq<Cell>, gone: nat, cursor: Cursor, cs: seq<Cell>, screen: seq<Cell>) {
    && |screen| == |before|
    && forall i :: 0 <= i < |screen| ==> screen[i] == CellAfter(Console(before, 0), true, cursor, cs, gone + i)
  }

  lemma FreshPlace(width: nat, height: nat, s: nat, row: nat, col: nat, n: nat, length: nat)
    requires width > 0 && col < width && length == (s + height) * width
    requires n == length - height * width + width * row + col
    ensures length - height * width == s * width && n / width == row + s && n % width == col
  {
    assert (s + height) * width == s * width + height * width;
    assert width * (row + s) == width * row + s * width;
    QuotientUnique(n, width, row + s, col);
  }

  /** A screen that is a window of the tape shows it. */
  lemma FreshShows(t: Console, cursor: Cursor, cs: seq<Cell>, t': Console, screen: seq<Cell>)
    requires t.pos == 0 && Contents(t, true, cursor, cs, t')
    requires |screen| == |t.cells| && screen == Window(t'.cells, |screen|)
    ensures ShowsFrom(t.cells, |t'.cells| - |screen|, cursor, cs, screen)
  {
    assert t == Console(t.cells, 0);
    assert forall i :: 0 <= i < |screen| ==> screen[i] == t'.cells[|t'.cells| - |screen| + i];
  }

  /** How far the screen has scrolled, and the row and column of the next cell. */
  lemma FreshRows(t: Console, width: nat, height: nat, cursor: Cursor, cs: seq<Cell>, t': Console, row: nat, col: nat)
    requires width > 0 && height > 0 && |t.cells| == height * width && t.pos == 0 && t.pos < |t.cells|
    requires t' == PutAll(t, width, true, cursor, cs) && |t.cells| <= |t'.cells|
    requires col < width && t'.pos == |t'.cells| - |t.cells| + width * row + col
    ensures var scrolled := ScrolledRows(width, height, |cs|);
            && |t'.cells| - |t.cells| == scrolled * width
            && row + scrolled == |cs| / width && col == |cs| % width
  {
    ScrolledCells(t, width, height, cursor, cs);
    assert t'.pos == |cs| by {
      TapeContents(t, width, true, cursor, cs, 0);
    }
    FreshPlace(width, height, ScrolledRows(width, height, |cs|), row, col, |cs|, |t'.cells|);
  }

  lemma QuotientMonotone(a: nat, b: nat, width: nat)
    requires width > 0 && a <= b
    ensures a / width <= b / width
  {
    var p: int, q: int := a / width, b / width;
    assert width * (p - q) == width * p - width * q;
    if p > q {
      MulAtLeast(width, p - q);
    }
  }
}
