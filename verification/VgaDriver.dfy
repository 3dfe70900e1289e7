/**
 The VGA text console of kern/arch/x86_64/vga/vga_driver.c: a cursor, wrapping and scrolling over
 a byte buffer of two bytes to the cell.  The ghost tape says what the screen is a window of.
 */
module VgaDriver {
  import opened Words
  import opened Quotients
  import opened MemFuncs
  import opened Tapes

  // ----- bytes and cells

  /** The first `n` cells of a buffer: a letter byte and a color byte each. */
  ghost function Screen(m: seq<u8>, n: nat): (s: seq<Cell>)
    requires 2 * n <= |m|
    ensures |s| == n
    decreases n
  {
    if n == 0 then [] else Screen(m, n - 1) + [Cell(m[2 * n - 2], m[2 * n - 1])]
  }

  lemma {:induction false} ScreenAt(m: seq<u8>, n: nat, i: nat)
    requires 2 * n <= |m| && i < n
    ensures Screen(m, n)[i] == Cell(m[2 * i], m[2 * i + 1])
    decreases n
  {
    if i < n - 1 {
      ScreenAt(m, n - 1, i);
    }
  }

  /** One of the sixteen VGA colors. */
  type VgaColor = c: int | 0 <= c < 16

  /** The color byte: the background shifted above the four bits of the foreground. */
  function Color(foreground: VgaColor, background: VgaColor): u8 { foreground + 16 * background }

  /** A byte holds two colors when the foreground is its low four bits and the background the high four. */
  ghost predicate HasColors(color: u8, foreground: int, background: int) {
    color % 16 == foreground && color / 16 == background
  }

  ghost predicate InColors(c: Cell, letter: u8, foreground: int, background: int) {
    c.letter == letter && HasColors(c.color, foreground, background)
  }

  /** The color byte holds both colors, and is the only byte that does. */
  lemma ColorIs(color: u8, foreground: VgaColor, background: VgaColor)
    ensures HasColors(color, foreground, background) <==> color == Color(foreground, background)
  {
  }

  lemma CellIs(c: Cell, letter: u8, foreground: VgaColor, background: VgaColor)
    ensures InColors(c, letter, foreground, background) <==> c == Cell(letter, Color(foreground, background))
  {
    ColorIs(c.color, foreground, background);
  }

  lemma CellsAre(cs: seq<Cell>, letters: seq<u8>, foreground: VgaColor, background: VgaColor)
    requires |cs| == |letters|
    requires forall k :: 0 <= k < |cs| ==> InColors(cs[k], letters[k], foreground, background)
    ensures forall k :: 0 <= k < |cs| ==> cs[k] == Cell(letters[k], Color(foreground, background))
  {
    forall k | 0 <= k < |cs|
      ensures cs[k] == Cell(letters[k], Color(foreground, background))
    {
      CellIs(cs[k], letters[k], foreground, background);
    }
  }

  /** Both bytes of cell `i` written. */
  ghost function PokeBytes(m: seq<u8>, i: nat, c: Cell): seq<u8>
    requires 2 * i + 1 < |m|
  {
    m[..2 * i] + [c.letter, c.color] + m[2 * i + 2..]
  }

  lemma PokeIsUpdates(m: seq<u8>, i: nat, c: Cell, m1: seq<u8>, m2: seq<u8>)
    requires 2 * i + 1 < |m| == |m1|
    requires m1 == m[2 * i := c.letter] && m2 == m1[2 * i + 1 := c.color]
    ensures m2 == PokeBytes(m, i, c)
    ensures forall k :: 2 * i + 2 <= k <= |m| ==> PokeBytes(m, i, c)[k..] == m[k..]
  {
  }

  /** Writing both bytes of cell `i` changes that cell only; past the screen it changes none. */
  lemma PokeScreen(m: seq<u8>, i: nat, c: Cell, n: nat)
    requires 2 * n <= |m| && 2 * i + 1 < |m|
    ensures Screen(PokeBytes(m, i, c), n) == if i < n then Screen(m, n)[i := c] else Screen(m, n)
  {
    var m' := PokeBytes(m, i, c);
    forall k | 0 <= k < n
      ensures Screen(m', n)[k] == if k == i then c else Screen(m, n)[k]
    {
      PokeCell(m, i, c, n, k);
    }
  }

  lemma PokeCell(m: seq<u8>, i: nat, c: Cell, n: nat, k: nat)
    requires 2 * n <= |m| && 2 * i + 1 < |m| && k < n
    ensures Screen(PokeBytes(m, i, c), n)[k] == if k == i then c else Screen(m, n)[k]
  {
    ScreenAt(PokeBytes(m, i, c), n, k);
    ScreenAt(m, n, k);
  }

  /**
   The bytes after internalVgaPushUp's copy and fill, for rows of `w` cells and `a` cells above
   the last row, when `ra` bytes are copied and `rw` are filled.
   */
  ghost function PushBytes(m: seq<u8>, w: nat, a: nat, ra: nat, rw: nat): (r: seq<u8>)
    requires 2 * w + ra <= |m| && 2 * a + rw <= |m| && 2 * a <= ra
    ensures |r| == |m|
  {
    var moved := CopyForward(m, 0, 2 * w, ra);
    moved[..2 * a] + seq(rw, _ => 0) + moved[2 * a + rw..]
  }

  lemma PushBytesAt(m: seq<u8>, w: nat, a: nat, ra: nat, rw: nat, k: nat)
    requires 2 * w + ra <= |m| && 2 * a + rw <= |m| && 2 * a <= ra <= 2 * a + rw && k < |m|
    ensures PushBytes(m, w, a, ra, rw)[k] ==
            if k < 2 * a then m[k + 2 * w]
            else if k < 2 * a + rw then 0
            else m[k]
  {
    CopyAt(m, 0, 2 * w, ra, k);
  }

  /** The screen moves up by one row and the last row is blank, however the amounts are rounded up. */
  lemma PushScreen(m: seq<u8>, w: nat, a: nat, ra: nat, rw: nat)
    requires 2 * w + ra <= |m| && 2 * a + rw <= |m| && 2 * a <= ra <= 2 * a + rw && 2 * w <= rw
    ensures Screen(PushBytes(m, w, a, ra, rw), a + w) == Screen(m, a + w)[w..] + Blanks(w)
  {
    var s, s' := Screen(m, a + w), Screen(PushBytes(m, w, a, ra, rw), a + w);
    forall i | 0 <= i < a + w
      ensures s'[i] == if i < a then s[i + w] else Cell(0, 0)
    {
      PushCell(m, w, a, ra, rw, i);
    }
  }

  lemma PushCell(m: seq<u8>, w: nat, a: nat, ra: nat, rw: nat, i: nat)
    requires 2 * w + ra <= |m| && 2 * a + rw <= |m| && 2 * a <= ra <= 2 * a + rw && 2 * w <= rw && i < a + w
    ensures Screen(PushBytes(m, w, a, ra, rw), a + w)[i] == if i < a then Screen(m, a + w)[i + w] else Cell(0, 0)
  {
    ScreenAt(PushBytes(m, w, a, ra, rw), a + w, i);
    PushBytesAt(m, w, a, ra, rw, 2 * i);
    PushBytesAt(m, w, a, ra, rw, 2 * i + 1);
    if i < a {
      ScreenAt(m, a + w, i + w);
    }
  }

  lemma PushOutside(m: seq<u8>, w: nat, a: nat, ra: nat, rw: nat)
    requires 2 * w + ra <= |m| && 2 * a + rw <= |m| && 2 * a <= ra <= 2 * a + rw
    ensures PushBytes(m, w, a, ra, rw)[2 * a + rw..] == m[2 * a + rw..]
  {
    forall k | 2 * a + rw <= k < |m|
      ensures PushBytes(m, w, a, ra, rw)[k] == m[k]
    {
      PushBytesAt(m, w, a, ra, rw, k);
    }
  }

  /** The rounding reaches one cell behind the screen when the width is odd, and never farther. */
  lemma RoundedRows(w: nat, k: nat, a: nat)
    requires a == w * k
    ensures 2 * w + Round4(2 * a) <= 2 * (a + w) + 2 * (w % 2)
    ensures 2 * a + Round4(2 * w) == 2 * (a + w) + 2 * (w % 2)
    ensures w > 0 ==> Round4(2 * a) <= 2 * a + Round4(2 * w)
  {
    RoundEven(a);
    RoundEven(w);
    if w % 2 == 0 {
      EvenProduct(w / 2, k);
    }
  }

  lemma EvenProduct(u: nat, k: nat)
    ensures (2 * u) * k == 2 * (u * k) && ((2 * u) * k) % 2 == 0
  {
  }

  lemma RoundEven(x: nat)
    ensures Round4(2 * x) == 2 * x + 2 * (x % 2)
  {
    var u := x / 2;
    if x % 2 == 0 {
      assert x == 2 * u && (4 * u + 3) / 4 == u;
    } else {
      assert x == 2 * u + 1 && (4 * u + 5) / 4 == u + 1;
    }
  }

  /** The copy and the fill of internalVgaPushUp. */
  method CopyThenBlank(mem: array<u8>, rowSize: u16, amount: u64, ghost w: nat, ghost a: nat, ghost ra: nat, ghost rw: nat)
    requires rowSize == 2 * w && amount == 2 * a && amount <= 0x1_0000
    requires ra == Round4(amount) && rw == Round4(rowSize)
    requires 2 * w + ra <= mem.Length && 2 * a + rw <= mem.Length
    modifies mem
    ensures mem[..] == PushBytes(old(mem[..]), w, a, ra, rw)
  {
    ghost var m := mem[..];
    var status := CopyMemory(mem, At(0), At(rowSize), amount);
    ghost var moved := mem[..];
    assert moved == CopyForward(m, 0, 2 * w, ra);
    SetMemoryBytes(mem, amount, 0, rowSize);
    assert mem[..] == moved[..2 * a] + seq(rw, _ => 0) + moved[2 * a + rw..];
  }

  lemma {:induction false} TimesGap(w: nat, y: nat, h: nat)
    requires y < h
    ensures Times(w, y) + w <= Times(w, h)
    ensures y + 1 == h ==> Times(w, y) + w == Times(w, h)
    ensures y + 1 < h ==> Times(w, y) + 2 * w <= Times(w, h)
    decreases h
  {
    if y + 1 < h {
      TimesGap(w, y, h - 1);
    }
  }

  lemma {:induction false} TimesAtLeast(w: nat, k: nat)
    requires w >= 1
    ensures Times(w, k) >= k
  {
    if k > 0 {
      TimesAtLeast(w, k - 1);
    }
  }

  // ----- the driver

  class VgaConsole {
    const mem: array<u8>
    const width: u16
    const height: u16
    var row: u16
    var col: u16
    var background: VgaColor
    var foreground: VgaColor
    var highlight: VgaColor
    var following: bool
    var cursorEnabled: bool
    /** All cells that were ever on the screen; the screen shows the last ones. */
    ghost var tape: seq<Cell>

    const size: nat  // the number of cells

    /**
     A screen whose cells a 16-bit offset can reach.  An odd width makes the memory routines
     round a row up by one cell, so they touch one cell behind the screen.
     */
    ghost predicate Valid()
      reads this, mem
    {
      && 1 <= width && 1 <= height && size == Times(width, height) && 2 * width < 0x1_0000 && 2 * size <= 0x1_0000
      && 2 * size + 2 * (width % 2) <= mem.Length
      && size <= |tape| && Screen(mem[..], size) == Window(tape, size)
    }

    /** VgaPrepareEnvironment: the screen shows what the framebuffer holds, and the cursor is off. */
    constructor (framebuffer: array<u8>, width: u16, height: u16)
      requires 1 <= width && 1 <= height && 2 * width < 0x1_0000 && 2 * (width * height) <= 0x1_0000
      requires 2 * (width * height) + 2 * (width % 2) <= framebuffer.Length
      ensures Valid() && Placed() && mem == framebuffer && this.width == width && this.height == height
      ensures size == width * height && State() == Console(Screen(mem[..], size), 0)
      ensures !following && !cursorEnabled && row == col == 0
      ensures background == 0 && foreground == 15 && highlight == 14
    {
      mem, this.width, this.height := framebuffer, width, height;
      size := width * height;
      background, foreground, highlight := 0, 15, 14;
      following, cursorEnabled := false, false;
      row, col := 0, 0;
      tape := Screen(framebuffer[..], width * height);
      new;
      TimesIsProduct(width, height);
    }

    /** What no console operation touches. */
    ghost function Outside(): seq<u8>
      requires 2 * size + 2 * (width % 2) <= mem.Length
      reads mem
    {
      mem[2 * size + 2 * (width % 2)..]
    }

    ghost function CursorCell(): Cell
      reads this
    {
      Cell(0, Color(highlight, background))
    }

    ghost function CursorState(): Cursor
      reads this
    {
      if cursorEnabled then Shown(CursorCell()) else Hidden
    }

    /** The tape after scrolling. */
    ghost function Pushed(t: seq<Cell>): (t': seq<Cell>)
      requires width > 0
      reads this
      ensures |t'| == |t| + width
    {
      Tapes.Scrolled(t, width, CursorState())
    }

    /** The tape after writing the `i`th cell of the screen. */
    ghost function Poked(t: seq<Cell>, i: nat, c: Cell): seq<Cell>
      requires size <= |t|
    {
      if i < size then t[|t| - size + i := c] else t
    }

    /** The byte offset VgaEntry computes, in 16 bits. */
    ghost function Offset(x: u32, y: u32): u16 { Wrap16(2 * (x + Times(width, y))) }

    /** The amount internalVgaPushUp copies; the cells above the last row, and the rounded amounts. */
    method CopyAmount() returns (amount: u64, ghost above: nat, ghost ra: nat, ghost rw: nat)
      requires 1 <= height && 1 <= width && size == Times(width, height) && 2 * size <= 0x1_0000
      ensures amount == 2 * above && size == above + width
      ensures ra == Round4(2 * above) && rw == Round4(2 * width)
      ensures 2 * width + ra <= 2 * size + 2 * (width % 2) && 2 * above <= ra <= 2 * above + rw
      ensures 2 * above + rw == 2 * size + 2 * (width % 2)
    {
      TimesIsProduct(width, height - 1);
      above := width * (height - 1);
      ra, rw := Round4(2 * above), Round4(2 * width);
      RoundedRows(width, height - 1, above);
      EvenProduct(width, height - 1);
      amount := 2 * width * (height - 1);
    }

    method RowSize() returns (rowSize: u16)
      requires 2 * width < 0x1_0000
      ensures rowSize == 2 * width
    {
      rowSize := Wrap16(2 * width);
    }

    /** The cells of the screen by row and column. */
    lemma CellIndex(x: nat, y: nat)
      requires x < width && y < height && size == Times(width, height) && 2 * size <= 0x1_0000
      ensures Times(width, y) + x < size && Offset(x, y) == 2 * (Times(width, y) + x)
      ensures y == height - 1 ==> Times(width, y) == size - width
    {
      PosOnTape(y, x);
    }

    lemma PosOnTape(y: nat, x: nat)
      requires y < height && x <= width && 1 <= width && size == Times(width, height)
      ensures Times(width, y) + x <= size
      ensures Times(width, y) + x == size <==> y == height - 1 && x == width
      ensures Times(width, y) + width == Times(width, y + 1)
    {
      TimesGap(width, y, height);
    }

    /** internalVgaPushUp */
    method PushUp()
      requires Valid()
      modifies this`col, this`tape, mem
      ensures Valid() && tape == Pushed(old(tape))
      ensures col == if cursorEnabled then 0 else old(col)
      ensures Outside() == old(Outside())
      decreases 2
    {
      ScrollBytes();
      CellIndex(0, height - 1);
      MoveCursor(0, height - 1, size - width);
    }

    /** The copy and the fill of internalVgaPushUp. */
    method ScrollBytes()
      requires Valid()
      modifies this`tape, mem
      ensures Valid() && tape == old(tape) + Blanks(width)
      ensures Outside() == old(Outside())
    {
      var rowSize := RowSize();
      var amount: u64;
      ghost var above, ra, rw;
      amount, above, ra, rw := CopyAmount();
      ScrollRows(rowSize, amount, above, ra, rw);
    }

    method ScrollRows(rowSize: u16, amount: u64, ghost above: nat, ghost ra: nat, ghost rw: nat)
      requires Valid() && rowSize == 2 * width && amount == 2 * above && size == above + width
      requires ra == Round4(amount) && rw == Round4(rowSize)
      requires 2 * width + ra <= mem.Length && 2 * above <= ra <= 2 * above + rw
      requires 2 * above + rw == 2 * size + 2 * (width % 2)
      modifies this`tape, mem
      ensures Valid() && tape == old(tape) + Blanks(width)
      ensures Outside() == old(Outside())
    {
      ghost var m := mem[..];
      CopyThenBlank(mem, rowSize, amount, width, above, ra, rw);
      PushScreen(m, width, above, ra, rw);
      PushOutside(m, width, above, ra, rw);
      WindowScroll(tape, size, width);
      tape := tape + Blanks(width);
      assert Outside() == mem[..][2 * above + rw..];
    }

    /** VgaMoveCursor, without the writes to the cursor ports; `at` is the cell of the 16-bit offset. */
    method MoveCursor(x: u32, y: u32, ghost at: nat)
      requires Valid() && Offset(x, y) == 2 * at && 2 * at + 1 < mem.Length
      modifies this`col, this`tape, mem
      ensures Valid()
      ensures !cursorEnabled ==> tape == old(tape) && col == old(col) && mem[..] == old(mem[..])
      ensures cursorEnabled ==>
                tape == Poked(if y >= height then Pushed(old(tape)) else old(tape), at, CursorCell()) && col == Wrap16(x)
      ensures at < size ==> Outside() == old(Outside())
      decreases if y >= height then 4 else 1
    {
      if !cursorEnabled {
        return;
      }
      EntryOnTape(highlight, background, 0, x, y, at);
    }

    /**
     VgaEntry; `at` is the cell of the 16-bit offset.  A position below the screen scrolls first, and
     is then written where its offset points: the letter, then the byte of both colors.
     */
    method Entry(foreground: VgaColor, background: VgaColor, letter: u8, x: u32, y: u32, ghost at: nat)
      requires Valid() && Offset(x, y) == 2 * at && 2 * at + 1 < mem.Length
      modifies this`col, this`tape, mem
      ensures Valid() && col == Wrap16(x)
      ensures at < size ==> mem[2 * at] == letter && HasColors(mem[2 * at + 1], foreground, background)
      ensures forall c: Cell :: InColors(c, letter, foreground, background) ==>
                tape == Poked(if y >= height then Pushed(old(tape)) else old(tape), at, c)
      ensures at < size ==> Outside() == old(Outside())
    {
      EntryOnTape(foreground, background, letter, x, y, at);
      if at < size {
        OnScreen(at, letter, foreground, background);
      }
      forall c: Cell | InColors(c, letter, foreground, background)
        ensures c == Cell(letter, Color(foreground, background))
      {
        CellIs(c, letter, foreground, background);
      }
    }

    /** The bytes of a cell of the screen. */
    lemma OnScreen(at: nat, letter: u8, foreground: VgaColor, background: VgaColor)
      requires Valid() && at < size && tape[|tape| - size + at] == Cell(letter, Color(foreground, background))
      ensures mem[2 * at] == letter && HasColors(mem[2 * at + 1], foreground, background)
    {
      ScreenAt(mem[..], size, at);
      assert Window(tape, size)[at] == tape[|tape| - size + at];
      ColorIs(Color(foreground, background), foreground, background);
    }

    /** What VgaEntry does to the tape. */
    method EntryOnTape(foreground: VgaColor, background: VgaColor, letter: u8, x: u32, y: u32, ghost at: nat)
      requires Valid() && Offset(x, y) == 2 * at && 2 * at + 1 < mem.Length
      modifies this`col, this`tape, mem
      ensures Valid() && col == Wrap16(x)
      ensures tape == Poked(if y >= height then Pushed(old(tape)) else old(tape), at,
                            Cell(letter, Color(foreground, background)))
      ensures at < size ==> Outside() == old(Outside())
      decreases if y >= height then 3 else 0
    {
      if y >= height {
        PushUp();
      }
      TimesIsProduct(width, y);
      WriteCell(Wrap16(2 * (x + y * width)), letter, Color(foreground, background), at);
      col := Wrap16(x);
    }

    method WriteCell(offset: nat, letter: u8, color: u8, ghost i: nat)
      requires Valid() && offset == 2 * i && offset + 1 < mem.Length
      modifies this`tape, mem
      ensures Valid() && tape == Poked(old(tape), i, Cell(letter, color))
      ensures i < size ==> Outside() == old(Outside())
    {
      ghost var m, c := mem[..], Cell(letter, color);
      mem[offset] := letter;
      ghost var m1 := mem[..];
      mem[offset + 1] := color;
      PokeIsUpdates(m, i, c, m1, mem[..]);
      PokeScreen(m, i, c, size);
      if i < size {
        WindowPoke(tape, size, i, c);
      }
      tape := Poked(tape, i, c);
    }

    // ----- characters

    /** The cursor is on the screen, or just behind the end of one of its rows. */
    ghost predicate Placed()
      reads this
    {
      row < height && col <= width && Times(width, row) + col <= size <= |tape|
    }

    /** The console with its position in column `x` of row `y`. */
    ghost function ConsoleAt(x: nat, y: nat): Console
      requires size <= |tape|
      reads this
    {
      Console(tape, |tape| - size + Times(width, y) + x)
    }

    /** The place of the cursor on the tape. */
    ghost function State(): Console
      requires size <= |tape|
      reads this
    {
      Console(tape, |tape| - size + Times(width, row) + col)
    }

    /**
     The two checks with which VgaAutoEntry and the end of VgaPutChar begin: a full row is left,
     and a position below the screen scrolls.
     */
    method WrapAndScroll()
      requires Valid()
      modifies this`row, this`col, this`tape, mem
      ensures Valid() && row < height && col < width
      ensures Outside() == old(Outside())
      ensures old(Placed()) ==>
                tape == Made(old(State()), width, CursorState()) && State().pos == old(State()).pos
    {
      if row < height && col <= width {
        PosOnTape(row, col);
      }
      if col >= width {
        col := 0;
        row := Wrap16(row + 1);
      }
      if row >= height {
        row := height - 1;
        CellIndex(0, height - 1);
        PushUp();
      }
    }

    /** VgaEntry at a cell of the screen. */
    method EntryAt(foreground: VgaColor, background: VgaColor, letter: u8, x: u32, y: u32)
      requires Valid() && x < width && y < height
      modifies this`col, this`tape, mem
      ensures Valid() && Outside() == old(Outside()) && col == x
      ensures ConsoleAt(x, y).pos < |tape| == |old(tape)| && ConsoleAt(x, y).pos == old(ConsoleAt(x, y)).pos
      ensures tape == old(tape)[ConsoleAt(x, y).pos := Cell(letter, Color(foreground, background))]
    {
      CellIndex(x, y);
      Fits16(x);
      EntryOnTape(foreground, background, letter, x, y, Times(width, y) + x);
    }

    /** VgaEntry at the cursor. */
    method EntryHere(foreground: VgaColor, background: VgaColor, letter: u8)
      requires Valid() && row < height && col < width
      modifies this`col, this`tape, mem
      ensures Valid() && col == old(col)
      ensures State().pos < |tape| == |old(tape)| && State().pos == old(State()).pos
      ensures tape == old(tape)[State().pos := Cell(letter, Color(foreground, background))]
      ensures Outside() == old(Outside())
    {
      EntryAt(foreground, background, letter, col, row);
    }

    /** VgaMoveCursor at the cursor. */
    method CursorHere()
      requires Valid() && row < height && col < width
      modifies this`col, this`tape, mem
      ensures Valid() && col == old(col)
      ensures State().pos < |tape| == |old(tape)| && State().pos == old(State()).pos
      ensures tape == if cursorEnabled then old(tape)[State().pos := CursorCell()] else old(tape)
      ensures Outside() == old(Outside())
    {
      CellIndex(col, row);
      MoveCursor(col, row, Times(width, row) + col);
    }

    /** VgaAutoEntry */
    method AutoEntry(foreground: VgaColor, background: VgaColor, letter: u8)
      requires Valid()
      modifies this`row, this`col, this`tape, mem
      ensures Valid() && Placed()
      ensures Outside() == old(Outside())
      ensures old(Placed()) ==>
                State() == Write(old(State()), width, Cell(letter, Color(foreground, background)))
    {
      ghost var placed, t, c := Placed(), State(), Cell(letter, Color(foreground, background));
      WrapAndScroll();
      WriteHere(foreground, background, letter);
      if placed {
        MadeRoom(t, width, CursorState(), c);
      }
    }

    /** The end of VgaAutoEntry: the entry, and the step to the next column. */
    method WriteHere(foreground: VgaColor, background: VgaColor, letter: u8)
      requires Valid() && row < height && col < width
      modifies this`col, this`tape, mem
      ensures Valid() && Placed() && Outside() == old(Outside())
      ensures old(State()).pos < |old(tape)|
      ensures State() == Console(old(tape)[old(State()).pos := Cell(letter, Color(foreground, background))],
                                 old(State()).pos + 1)
    {
      EntryHere(foreground, background, letter);
      Advance();
    }

    method Advance()
      requires Valid() && row < height && col < width && State().pos < |tape|
      modifies this`col
      ensures Valid() && Placed() && State() == Console(tape, old(State()).pos + 1)
    {
      Fits16(col + 1);
      col := Wrap16(col + 1);
    }

    lemma Fits16(x: nat)
      requires x < 0x1_0000
      ensures Wrap16(x) == x
    {
    }

    /** The end of VgaPutChar, when the cursor follows the input. */
    method FollowInput()
      requires Valid() && Placed()
      modifies this`row, this`col, this`tape, mem
      ensures Valid() && Placed()
      ensures Outside() == old(Outside())
      ensures State() == Follow(old(State()), width, CursorState()) && col < width
    {
      ghost var t := State();
      WrapAndScroll();
      CursorHere();
      MadeRoom(t, width, CursorState(), CursorCell());
    }

    /** VgaPutChar: the letter in the current colors, and the cursor in the highlight color if it is followed and shown. */
    method PutChar(letter: u8)
      requires Valid()
      modifies this`row, this`col, this`tape, mem
      ensures Valid() && Placed() && (following ==> col < width)
      ensures Outside() == old(Outside())
      ensures old(Placed()) ==> forall c: Cell :: InColors(c, letter, foreground, background) ==>
                State() == Put(old(State()), width, following, CursorState(), c)
      ensures old(Placed()) ==>
                old(State()).pos < |tape| && InColors(tape[old(State()).pos], letter, foreground, background)
      ensures old(Placed()) && following && cursorEnabled ==>
                State().pos < |tape| && InColors(tape[State().pos], 0, highlight, background)
    {
      ghost var placed, t, c := Placed(), State(), Cell(letter, Color(foreground, background));
      CellIs(c, letter, foreground, background);
      CellIs(CursorCell(), 0, highlight, background);
      PutOnTape(letter);
      if placed {
        PutShown(t, width, following, CursorState(), c);
        forall d: Cell | InColors(d, letter, foreground, background)
          ensures d == c
        {
          CellIs(d, letter, foreground, background);
        }
      }
    }

    /** What VgaPutChar does to the tape. */
    method PutOnTape(letter: u8)
      requires Valid()
      modifies this`row, this`col, this`tape, mem
      ensures Valid() && Placed() && (following ==> col < width)
      ensures Outside() == old(Outside())
      ensures old(Placed()) ==>
                State() == Put(old(State()), width, following, CursorState(), Cell(letter, Color(foreground, background)))
    {
      AutoEntry(foreground, background, letter);
      if following {
        FollowInput();
      }
    }

    /** One VgaPutChar call of many. */
    method PutNext(letter: u8, ghost t: Console, ghost cs: seq<Cell>, ghost i: nat)
      requires Valid() && Placed()
      requires i < |cs| && cs[i] == Cell(letter, Color(foreground, background)) && t.pos <= |t.cells|
      requires State() == PutAll(t, width, following, CursorState(), cs[..i])
      modifies this`row, this`col, this`tape, mem
      ensures Valid() && Placed() && Outside() == old(Outside()) && (following ==> col < width)
      ensures State() == PutAll(t, width, following, CursorState(), cs[..i + 1])
    {
      PutAllNext(t, width, following, CursorState(), cs, i);
      PutOnTape(letter);
    }

    /** Any number of VgaPutChar calls, as KiPrint makes them; `cs` are the letters in the current colors. */
    method PutString(letters: seq<u8>, ghost cs: seq<Cell>)
      requires Valid() && Placed() && |cs| == |letters|
      requires forall k :: 0 <= k < |cs| ==> InColors(cs[k], letters[k], foreground, background)
      modifies this`row, this`col, this`tape, mem
      ensures Valid() && Placed() && Outside() == old(Outside())
      ensures following && old(col) < width ==> col < width
      ensures State() == PutAll(old(State()), width, following, CursorState(), cs)
      ensures Contents(old(State()), following, CursorState(), cs, State())
    {
      ghost var t := State();
      TapeHolds(t, width, following, CursorState(), cs);
      CellsAre(cs, letters, foreground, background);
      var i := 0;
      while i < |letters|
        invariant 0 <= i <= |letters|
        invariant Valid() && Placed() && Outside() == old(Outside())
        invariant following && old(col) < width ==> col < width
        invariant State() == PutAll(t, width, following, CursorState(), cs[..i])
      {
        PutNext(letters[i], t, cs, i);
        i := i + 1;
      }
      assert cs[..i] == cs;
    }

    /**
     The sliding window, down to the screen: after any number of characters each cell of the screen
     shows the character, the cursor, or the old or blank cell that belongs there.
     */
    lemma ScreenShows(t: Console, cs: seq<Cell>, i: nat)
      requires Valid() && i < size && Contents(t, following, CursorState(), cs, State())
      ensures Screen(mem[..], size)[i] == CellAfter(t, following, CursorState(), cs, |tape| - size + i)
    {
      assert Window(tape, size)[i] == tape[|tape| - size + i];
    }

    // ----- lines

    /** CurrentRow as VgaStringEntry keeps it: the row of the text, or one below the screen after scrolling. */
    predicate RowOf(y: nat)
      reads this
    {
      row == y || (row == height && y == height - 1)
    }

    /** The two checks at the head of VgaStringEntry's loop. */
    method WrapLine(x: u32, y: u32) returns (x': u32, y': u32)
      requires Valid()
      modifies this`row, this`col, this`tape, mem
      ensures Valid() && Outside() == old(Outside()) && x' < width && y' < height
      ensures x <= width && y < height ==>
                && Times(width, y) + x <= size
                && tape == Made(old(ConsoleAt(x, y)), width, CursorState())
                && ConsoleAt(x', y').pos == old(ConsoleAt(x, y)).pos
                && x' == (if x == width then 0 else x)
      ensures y < height && old(RowOf(y)) ==> RowOf(y')
    {
      x', y' := WrapColumn(x, y);
      y' := ScrollIfBelow(y');
    }

    /** A full row is left for the next one. */
    method WrapColumn(x: u32, y: u32) returns (x': u32, y': u32)
      requires Valid()
      modifies this`row
      ensures Valid() && x' < width && (y < height ==> y' <= height)
      ensures x <= width && y < height ==>
                && x' == (if x == width then 0 else x) && (y' == height ==> x' == 0)
                && Times(width, y') + x' == Times(width, y) + x <= size
                && (Times(width, y) + x == size <==> y' == height)
      ensures y < height && old(RowOf(y)) ==> row == y' || RowOf(y')
    {
      x', y' := x, y;
      if x <= width && y < height {
        PosOnTape(y, x);
      }
      if x' >= width {
        x' := 0;
        y' := Wrap32(y' + 1);
        row := Wrap16(y');
      }
    }

    /** A row below the screen is reached by scrolling. */
    method ScrollIfBelow(y: u32) returns (y': u32)
      requires Valid()
      modifies this`col, this`tape, mem
      ensures Valid() && Outside() == old(Outside()) && y' < height
      ensures y < height ==> y' == y && tape == old(tape)
      ensures y >= height ==> y' == height - 1 && tape == Pushed(old(tape)) && ConsoleAt(0, y').pos == |old(tape)|
    {
      y' := y;
      if y' >= height {
        y' := height - 1;
        CellIndex(0, height - 1);
        PushUp();
      }
    }

    /** A printing character of a line: the checks, the entry, and the next column. */
    method LineStep(foreground: VgaColor, background: VgaColor, letter: u8, x: u32, y: u32) returns (x': u32, y': u32)
      requires Valid()
      modifies this`row, this`col, this`tape, mem
      ensures Valid() && Outside() == old(Outside()) && x' <= width && y' < height
      ensures x <= width && y < height ==>
                && x' == NextColumn(width, x)
                && Times(width, y) + x <= size && Times(width, y') + x' <= size
                && ConsoleAt(x', y') == Write(old(ConsoleAt(x, y)), width, Cell(letter, Color(foreground, background)))
      ensures y < height && old(RowOf(y)) ==> RowOf(y')
    {
      ghost var t := ConsoleAt(x, y);
      x', y' := WrapLine(x, y);
      EntryAt(foreground, background, letter, x', y');
      if x <= width && y < height {
        MadeRoom(t, width, CursorState(), Cell(letter, Color(foreground, background)));
      }
      x' := x' + 1;
    }

    /**
     A tab or a newline inside VgaStringEntry: eight spaces at the cursor, or the cursor at the
     start of the next row.  The position of the text does not move.
     */
    method Control(letter: u8)
      requires Valid() && (letter == 9 || letter == 10)
      modifies this`row, this`col, this`tape, mem
      ensures Valid() && Outside() == old(Outside())
      ensures letter == 10 ==>
                tape == old(tape) && mem[..] == old(mem[..]) && row == Wrap16(old(row) + 1) && col == 0
      ensures letter == 9 && old(Placed()) ==>
                State() == PutAll(old(State()), width, following, CursorState(), Spaces())
    {
      if letter == 9 {
        Tab();
      } else {
        col := 0;
        row := Wrap16(row + 1);
      }
    }

    method Tab()
      requires Valid()
      modifies this`row, this`col, this`tape, mem
      ensures Valid() && Outside() == old(Outside())
      ensures old(Placed()) ==> State() == PutAll(old(State()), width, following, CursorState(), Spaces())
    {
      ghost var placed, cs := Placed(), Spaces();
      ghost var t := if placed then State() else Console([], 0);
      var i := 0;
      while i < 8
        invariant 0 <= i <= 8
        invariant Valid() && Outside() == old(Outside())
        invariant placed ==> Spaced(t, cs[..i])
      {
        TabSpace(placed, t, cs, i);
        i := i + 1;
      }
      assert cs[..8] == cs;
    }

    /** The console is `t` with `cs` put. */
    ghost predicate Spaced(t: Console, cs: seq<Cell>)
      requires width > 0 && size <= |tape|
      reads this
    {
      Placed() && t.pos <= |t.cells| && State() == PutAll(t, width, following, CursorState(), cs)
    }

    /** One of the eight spaces. */
    method TabSpace(ghost placed: bool, ghost t: Console, ghost cs: seq<Cell>, ghost i: nat)
      requires Valid() && i < |cs| && cs[i] == Cell(32, Color(foreground, background))
      requires placed ==> Spaced(t, cs[..i])
      modifies this`row, this`col, this`tape, mem
      ensures Valid() && Outside() == old(Outside())
      ensures placed ==> Spaced(t, cs[..i + 1])
    {
      if placed {
        PutAllNext(t, width, following, CursorState(), cs, i);
      }
      PutOnTape(32);
    }

    /** A tab: eight spaces in the current colors. */
    ghost function Spaces(): (cs: seq<Cell>)
      reads this
      ensures |cs| == 8 && forall k :: 0 <= k < 8 ==> cs[k] == Cell(32, Color(foreground, background))
    {
      var c := Cell(32, Color(foreground, background));
      seq(8, _ => c)
    }

    /**
     The text stands at (x, y), where `line` ends; a full last row may have been left already,
     unless `exact`, when the column is `col` and the row of the console is the text's as well.
     */
    ghost predicate LineAt(line: Console, x: nat, y: nat, col: nat, exact: bool)
      requires width > 0 && size <= |tape|
      reads this
    {
      && x <= width && y < height && Times(width, y) + x <= size && line.pos <= |line.cells|
      && ConsoleAt(x, y).pos == line.pos && RoomMade(line, width, CursorState(), tape)
      && (exact ==> tape == line.cells && x == col && RowOf(y))
    }

    /** A printing character of a line. */
    method LineNext(
      foreground: VgaColor, background: VgaColor, letter: u8, x: u32, y: u32,
      ghost known: bool, ghost line: Console, ghost col: nat, ghost exact: bool) returns (x': u32, y': u32)
      requires Valid()
      requires known ==> col <= width && LineAt(line, x, y, col, exact)
      modifies this`row, this`col, this`tape, mem
      ensures Valid() && Outside() == old(Outside())
      ensures known ==>
                LineAt(Write(line, width, Cell(letter, Color(foreground, background))), x', y', NextColumn(width, col), exact)
    {
      if known {
        RoomEarly(line, width, CursorState(), tape, Cell(letter, Color(foreground, background)));
      }
      x', y' := LineStep(foreground, background, letter, x, y);
    }

    /** The checks before a character that prints no cell of the line. */
    method LineStay(x: u32, y: u32, ghost known: bool, ghost line: Console) returns (x': u32, y': u32)
      requires Valid()
      requires known ==> LineAt(line, x, y, 0, false)
      modifies this`row, this`col, this`tape, mem
      ensures Valid() && Outside() == old(Outside())
      ensures known ==> LineAt(line, x', y', 0, false)
    {
      if known {
        RoomEarly(line, width, CursorState(), tape, CursorCell());
      }
      x', y' := WrapLine(x, y);
      if known {
        PosOnTape(y', x');
      }
    }

    /** What VgaStringEntry does with one character. */
    method TextChar(
      foreground: VgaColor, background: VgaColor, c: u8, x: u32, y: u32,
      ghost known: bool, ghost line: Console, ghost col: nat, ghost exact: bool) returns (x': u32, y': u32)
      requires Valid()
      requires known ==> col <= width && LineAt(line, x, y, col, exact)
      modifies this`row, this`col, this`tape, mem
      ensures Valid() && Outside() == old(Outside())
      ensures known && (c == 10 || c == 0) ==> LineAt(line, x', y', col, false)
      ensures known && c != 9 && c != 10 && c != 0 ==>
                LineAt(Write(line, width, Cell(c, Color(foreground, background))), x', y', NextColumn(width, col), exact)
    {
      if c == 9 || c == 10 {
        x', y' := LineStay(x, y, known, line);
        Control(c);
      } else if c == 0 {
        x', y' := LineStay(x, y, known, line);
      } else {
        x', y' := LineNext(foreground, background, c, x, y, known, line, col, exact);
      }
    }

    /** The first `i` characters of a text without tabs stand as a line that began at `t` in column `posx`. */
    ghost predicate TextAt(t: Console, posx: nat, text: seq<u8>, i: nat, color: u8, x: nat, y: nat, exact: bool)
      requires width > 0 && size <= |tape| && i <= |text|
      reads this
    {
      9 !in text[..i] ==>
        && posx <= width && t.pos <= |t.cells|
        && LineAt(LineOf(t, width, text[..i], color), x, y, ColumnOf(width, posx, text[..i], color), exact && 10 !in text[..i])
    }

    lemma TextStart(posx: nat, posy: nat, text: seq<u8>, color: u8)
      requires Valid() && posx <= width && posy < height
      ensures TextAt(ConsoleAt(posx, posy), posx, text, 0, color, posx, posy, RowOf(posy))
    {
      PosOnTape(posy, posx);
      assert text[..0] == [];
    }

    method TextNext(
      foreground: VgaColor, background: VgaColor, text: seq<u8>, index: nat, x: u32, y: u32,
      ghost placed: bool, ghost t: Console, ghost posx: nat, ghost exact: bool) returns (x': u32, y': u32)
      requires Valid() && index < |text|
      requires placed ==> TextAt(t, posx, text, index, Color(foreground, background), x, y, exact)
      modifies this`row, this`col, this`tape, mem
      ensures Valid() && Outside() == old(Outside())
      ensures placed && text[index] != 0 ==>
                TextAt(t, posx, text, index + 1, Color(foreground, background), x', y', exact)
      ensures placed && text[index] == 0 ==>
                TextAt(t, posx, text, index, Color(foreground, background), x', y', false)
    {
      ghost var known, color := placed && 9 !in text[..index], Color(foreground, background);
      assert text[..index + 1] == text[..index] + [text[index]];
      ghost var line, col := t, 0;
      if known {
        LineOfNext(t, width, posx, text, color, index);
        line, col := LineOf(t, width, text[..index], color), ColumnOf(width, posx, text[..index], color);
      }
      x', y' := TextChar(foreground, background, text[index], x, y, known, line, col, exact && 10 !in text[..index]);
    }

    /**
     VgaStringEntry.  `text` is the memory of the string, one character longer than `length`, and
     `read` is the number of characters before the first NUL.  Every write stays on the screen.  A
     text without tabs is one line of cells from (posx, posy) on: a newline in it moves the cursor
     but neither ends nor interrupts the line.
     */
    method StringEntry(
      foreground: VgaColor, background: VgaColor, text: seq<u8>, length: u32, posx: u32, posy: u32, ghost color: u8)
      returns (ghost endX: nat, ghost endY: nat, ghost read: nat)
      requires Valid() && length < |text| && HasColors(color, foreground, background)
      modifies this`row, this`col, this`tape, mem
      ensures Valid() && Outside() == old(Outside())
      ensures read <= length && (forall k :: 0 <= k < read ==> text[k] != 0) && (read < length ==> text[read] == 0)
      ensures posx <= width && posy < height ==>
                TextAt(old(ConsoleAt(posx, posy)), posx, text, read, color, endX, endY,
                       read == length && old(RowOf(posy)))
    {
      ghost var t, placed, exact := ConsoleAt(posx, posy), posx <= width && posy < height, RowOf(posy);
      if placed {
        TextStart(posx, posy, text, color);
      }
      ColorIs(color, foreground, background);
      endX, endY, read := TextLoop(foreground, background, text, length, posx, posy, placed, t, color, exact);
    }

    /** The loop of VgaStringEntry. */
    method TextLoop(
      foreground: VgaColor, background: VgaColor, text: seq<u8>, length: u32, posx: u32, posy: u32,
      ghost placed: bool, ghost t: Console, ghost color: u8, ghost exact: bool)
      returns (ghost endX: nat, ghost endY: nat, ghost read: nat)
      requires Valid() && length < |text| && color == Color(foreground, background)
      requires placed ==> TextAt(t, posx, text, 0, color, posx, posy, exact)
      modifies this`row, this`col, this`tape, mem
      ensures Valid() && Outside() == old(Outside())
      ensures read <= length && (forall k :: 0 <= k < read ==> text[k] != 0) && (read < length ==> text[read] == 0)
      ensures placed && read == length ==> TextAt(t, posx, text, read, color, endX, endY, exact)
      ensures placed && read < length ==> TextAt(t, posx, text, read, color, endX, endY, false)
    {
      var x: u32, y: u32, index := posx, posy, 0;
      while index < length
        invariant 0 <= index <= length && forall k :: 0 <= k < index ==> text[k] != 0
        invariant Valid() && Outside() == old(Outside())
        invariant placed ==> TextAt(t, posx, text, index, color, x, y, exact)
      {
        x, y := TextNext(foreground, background, text, index, x, y, placed, t, posx, exact);
        if text[index] == 0 {
          return x, y, index;
        }
        index := index + 1;
      }
      return x, y, index;
    }

    /**
     VgaPrintln always ends in column 0 of a row on the screen.  A text without control characters
     appears cell by cell from the cursor on; the cursor then goes to the start of the row below
     the last character's, which is given room and, if enabled, drawn.
     */
    method Println(foreground: VgaColor, background: VgaColor, text: seq<u8>, length: u32, ghost color: u8)
      requires Valid() && length < |text| && HasColors(color, foreground, background)
      modifies this`row, this`col, this`tape, mem
      ensures Valid() && row < height && col == 0
      ensures Outside() == old(Outside())
      ensures Plain(text[..length]) && old(Placed()) ==>
                LineDone(LineOf(old(State()), width, text[..length], color),
                         ColumnAfter(width, old(col), length), width, CursorState(), State())
    {
      ghost var plain := Plain(text[..length]);
      ghost var endX, endY, read := StringEntry(foreground, background, text, length, col, row, color);
      assert plain ==> read == length by {
        assert read < length ==> text[..length][read] == 0;
      }
      NewLine(endX, endY);
    }

    /** The step to the next row in VgaPrintln. */
    method StepDown(ghost y: nat)
      requires Valid()
      modifies this`row, this`col, this`tape, mem
      ensures Valid() && Outside() == old(Outside()) && row < height && col == 0
      ensures y < height && old(RowOf(y)) ==>
                && Times(width, y) + width <= size
                && tape == Made(old(ConsoleAt(width, y)), width, CursorState())
                && State().pos == old(ConsoleAt(width, y)).pos
    {
      if y < height {
        PosOnTape(y, width);
      }
      TimesAtLeast(width, height);
      row := Wrap16(row + 1);
      col := 0;
      if row >= height {
        row := height - 1;
        CellIndex(0, height - 1);
        PushUp();
      }
    }

    /** The end of VgaPrintln, for a text that ended in column `x` of row `y`. */
    method NewLine(ghost x: nat, ghost y: nat)
      requires Valid()
      modifies this`row, this`col, this`tape, mem
      ensures Valid() && Outside() == old(Outside()) && row < height && col == 0
      ensures y < height && old(RowOf(y)) ==> LineDone(old(ConsoleAt(x, y)), x, width, CursorState(), State())
    {
      ghost var t, known := ConsoleAt(width, y), y < height && RowOf(y);
      StepDown(y);
      CursorHere();
      if known {
        MadeRoom(t, width, CursorState(), CursorCell());
      }
    }

    /**
     PutString on a new console whose cursor follows the input: the screen is a window that has
     moved down by ScrolledRows over what it showed, the characters in order from the top left, the
     cursor behind them if enabled, and blanks; row and column are those of the next character.
     */
    method PutFresh(letters: seq<u8>, ghost cs: seq<Cell>, ghost before: seq<Cell>)
      requires Valid() && Placed() && following && size == height * width
      requires State() == Console(before, 0) && |before| == size && col < width
      requires |cs| == |letters| && forall k :: 0 <= k < |cs| ==> InColors(cs[k], letters[k], foreground, background)
      modifies this`row, this`col, this`tape, mem
      ensures Valid() && Placed()
      ensures cursorEnabled ==> CursorState().Shown? && InColors(CursorState().cell, 0, highlight, background)
      ensures ShowsFrom(before, |tape| - size, CursorState(), cs, Screen(mem[..], size))
      ensures var scrolled := ScrolledRows(width, height, |cs|);
              |tape| - size == scrolled * width && row + scrolled == |cs| / width && col == |cs| % width
    {
      PutString(letters, cs);
      CellIs(CursorCell(), 0, highlight, background);
      TimesIsProduct(width, row);
      FreshRows(Console(before, 0), width, height, CursorState(), cs, State(), row, col);
      FreshShows(Console(before, 0), CursorState(), cs, State(), Screen(mem[..], size));
    }
  }

  /** No tab, no newline and no NUL. */
  predicate Plain(text: seq<u8>) {
    9 !in text && 10 !in text && 0 !in text
  }
}
