/** The driver state of kernel/vga.c, updated in place, and its refinement of the document. */
module VgaTerminal {
  import opened Bytes
  import opened Bits
  import opened CString
  import opened VgaText

  lemma TabMask(col: nat)
    requires col < WIDTH
    ensures TWO_64 >= 4 && BitAnd(col + 4, TWO_64 - 4) == (col / 4 + 1) * 4
  {
    assert Pow2(2) == 4;
    Pow2Values();
    MaskRoundsDownTo(col + 4, 2, 64, 4, TWO_64);
    assert Rest(col + 4, 4) == (col + 4) % 4;
  }

  /** The document's arithmetic on positions, in terms of the driver's row and column. */
  lemma PutAtRowColumn(d: Document, row: nat, col: nat)
    requires d.Valid() && row < HEIGHT && col < WIDTH
    requires d.pos == |d.cells| - CELLS + row * WIDTH + col
    ensures RowStart(d.pos) == d.pos - col
    ensures TabStop(d.pos) == d.pos - col + (col / 4 + 1) * 4
  {
    var q := |d.cells| / WIDTH - HEIGHT + row;
    assert d.pos == WIDTH * q + col;
    QuotientUnique(d.pos, WIDTH, q, col);
    QuotientUnique(d.pos, 4, 20 * q + col / 4, col % 4);
  }

  lemma ScrollPosition(d: Document, row: nat, col: nat)
    requires d.Valid() && row < HEIGHT && col < WIDTH
    requires d.pos == |d.cells| - CELLS + row * WIDTH + col
    ensures d.Scroll().Valid()
    ensures d.Scroll().pos == |d.Scroll().cells| - CELLS + (HEIGHT - 1) * WIDTH + col
  {
    PutAtRowColumn(d, row, col);
  }

  /** Editing one cell of the window edits the same cell of the document. */
  lemma EditInWindow(d: Document, i: nat, e: Cell)
    requires d.Valid() && i < CELLS
    ensures d.(cells := d.cells[|d.cells| - CELLS + i := e]).Window() == d.Window()[i := e]
  {
  }

  /** Appending a row moves the window down by one row. */
  lemma AppendShiftsWindow(d: Document)
    requires d.Valid()
    ensures |d.cells + Blanks(WIDTH, d.color)| >= CELLS
    ensures d.Scroll().Window() == d.Window()[WIDTH..] + Blanks(WIDTH, d.color)
  {
  }

  // The driver by itself: row, column and cells

  /** The row after a newline, and what it does to the cells. */
  ghost predicate NextLine(row: nat, buf: seq<Cell>, color: byte, row': nat, buf': seq<Cell>)
    requires |buf| == CELLS
  {
    if row + 1 < HEIGHT then row' == row + 1 && buf' == buf
    else row' == HEIGHT - 1 && buf' == buf[WIDTH..] + Blanks(WIDTH, color)
  }

  /** A character in terms of row, column and cells. */
  ghost predicate PutMeans(c: byte, color: byte, row: nat, col: nat, buf: seq<Cell>,
                           row': nat, col': nat, buf': seq<Cell>)
    requires |buf| == CELLS && row < HEIGHT && col < WIDTH
  {
    if c == NEWLINE then col' == 0 && NextLine(row, buf, color, row', buf')
    else if c == RETURN then row' == row && col' == 0 && buf' == buf
    else if c == TAB then
      if (col / 4 + 1) * 4 < WIDTH then row' == row && col' == (col / 4 + 1) * 4 && buf' == buf
      else col' == 0 && NextLine(row, buf, color, row', buf')
    else if c == BACKSPACE then
      row' == row &&
      if col > 0 then col' == col - 1 && buf' == buf[row * WIDTH + col - 1 := Blank(color)]
      else col' == col && buf' == buf
    else
      var b := buf[row * WIDTH + col := Entry(c, color)];
      if col + 1 < WIDTH then row' == row && col' == col + 1 && buf' == b
      else col' == 0 && NextLine(row, b, color, row', buf')
  }

  /** Cells scrolled up by some lines: what is pushed out at the top comes in blank at the bottom. */
  function Scrolled(buf: seq<Cell>, lines: int, color: byte): (r: seq<Cell>)
    requires |buf| == CELLS
    ensures |r| == CELLS
  {
    var n := if lines <= 0 then 0 else if lines < HEIGHT then lines else HEIGHT;
    buf[n * WIDTH..] + Blanks(n * WIDTH, color)
  }

  lemma ScrolledOnce(buf: seq<Cell>, i: nat, color: byte)
    requires |buf| == CELLS
    ensures Scrolled(buf, i + 1, color) == Scrolled(buf, i, color)[WIDTH..] + Blanks(WIDTH, color)
  {
  }

  lemma ScrolledNone(buf: seq<Cell>, color: byte)
    requires |buf| == CELLS
    ensures forall lines :: lines <= 0 ==> Scrolled(buf, lines, color) == buf
  {
  }

  class Terminal {
    const buffer: array<Cell>
    var row: nat
    var col: nat
    var color: byte
    ghost var doc: Document

    ghost predicate Shape()
      reads this
    {
      buffer.Length == CELLS
    }

    ghost predicate Valid()
      reads this, buffer
    {
      && Shape()
      && row < HEIGHT && col < WIDTH
      && doc.Valid()
      && color == doc.color
      && doc.pos == |doc.cells| - CELLS + row * WIDTH + col
      && buffer[..] == doc.Window()
    }

    /** vga_init over whatever the video memory holds. */
    constructor Init(memory: array<Cell>)
      requires memory.Length == CELLS
      modifies memory
      ensures Valid() && buffer == memory
      ensures doc == Fresh(Color(7, 0))
      ensures row == 0 && col == 0 && color % 16 == 7 && color / 16 == 0
    {
      buffer := memory;
      row, col := 0, 0;
      new;
      color := Color(7, 0);
      Clear();
    }

    method SetColor(fg: nat, bg: nat)
      requires Valid() && fg < 16 && bg < 16
      modifies this
      ensures Valid() && doc == Apply(old(doc), Op.SetColor(fg, bg))
      ensures color % 16 == fg && color / 16 == bg && row == old(row) && col == old(col)
    {
      color := Color(fg, bg);
      doc := doc.(color := color);
    }

    method Clear()
      requires Shape()
      modifies this, buffer
      ensures Valid() && doc == Fresh(old(color))
      ensures row == 0 && col == 0 && color == old(color)
      ensures forall i :: 0 <= i < CELLS ==> buffer[i] == Blank(color)
    {
      var y := 0;
      while y < HEIGHT
        invariant y <= HEIGHT && color == old(color)
        invariant forall i :: 0 <= i < y * WIDTH ==> buffer[i] == Blank(color)
      {
        var x := 0;
        while x < WIDTH
          invariant x <= WIDTH && color == old(color)
          invariant forall i :: 0 <= i < y * WIDTH + x ==> buffer[i] == Blank(color)
        {
          buffer[y * WIDTH + x] := Blank(color);
          x := x + 1;
        }
        y := y + 1;
      }
      row, col := 0, 0;
      doc := Fresh(color);
      assert buffer[..] == doc.Window();
    }

    /** Copy every row onto the one above, in increasing order, then blank the last row. */
    method Scroll()
      requires Shape() && row <= HEIGHT
      modifies this`row, buffer
      ensures buffer[..] == old(buffer[..])[WIDTH..] + Blanks(WIDTH, color)
      ensures row == HEIGHT - 1
    {
      ghost var was := buffer[..];
      var y := 1;
      while y < HEIGHT
        invariant 1 <= y <= HEIGHT
        invariant forall i :: 0 <= i < (y - 1) * WIDTH ==> buffer[i] == was[i + WIDTH]
        invariant forall i :: (y - 1) * WIDTH <= i < CELLS ==> buffer[i] == was[i]
      {
        var x := 0;
        while x < WIDTH
          invariant x <= WIDTH
          invariant forall i :: 0 <= i < (y - 1) * WIDTH + x ==> buffer[i] == was[i + WIDTH]
          invariant forall i :: (y - 1) * WIDTH + x <= i < CELLS ==> buffer[i] == was[i]
        {
          buffer[(y - 1) * WIDTH + x] := buffer[y * WIDTH + x];
          x := x + 1;
        }
        y := y + 1;
      }
      var x := 0;
      while x < WIDTH
        invariant x <= WIDTH
        invariant forall i :: 0 <= i < CELLS - WIDTH ==> buffer[i] == was[i + WIDTH]
        invariant forall i :: CELLS - WIDTH <= i < CELLS - WIDTH + x ==> buffer[i] == Blank(color)
      {
        buffer[(HEIGHT - 1) * WIDTH + x] := Blank(color);
        x := x + 1;
      }
      row := HEIGHT - 1;
      assert buffer[..] == was[WIDTH..] + Blanks(WIDTH, color);
    }

    method ScrollUp(lines: int)
      requires Valid()
      modifies this, buffer
      ensures Valid() && doc == Apply(old(doc), Op.ScrollUp(lines))
      ensures col == old(col) && color == old(color) && row == if lines > 0 then HEIGHT - 1 else old(row)
      ensures buffer[..] == Scrolled(old(buffer[..]), lines, color)
    {
      hide Scrolled, Document.Scroll, Document.Window, Document.Valid;
      ScrolledNone(buffer[..], color);
      var i := 0;
      while i < lines
        invariant Valid() && 0 <= i && (lines > 0 ==> i <= lines)
        invariant ScrollBy(doc, lines - i) == ScrollBy(old(doc), lines)
        invariant col == old(col) && color == old(color) && row == if i > 0 then HEIGHT - 1 else old(row)
        invariant buffer[..] == Scrolled(old(buffer[..]), i, color)
      {
        ScrolledOnce(old(buffer[..]), i, color);
        ScrollOnce();
        i := i + 1;
      }
    }

    method ScrollOnce()
      requires Valid()
      modifies this, buffer
      ensures Valid() && doc == old(doc).Scroll()
      ensures col == old(col) && color == old(color) && row == HEIGHT - 1
      ensures buffer[..] == old(buffer[..])[WIDTH..] + Blanks(WIDTH, color)
    {
      AppendShiftsWindow(doc);
      ScrollPosition(doc, row, col);
      Scroll();
      doc := doc.Scroll();
    }

    /** The common tail of newline, tab and wrap: the cursor has left its row. */
    method NextRow()
      requires Shape() && row < HEIGHT && doc.Valid() && color == doc.color
      requires buffer[..] == doc.Window()
      requires |doc.cells| - CELLS + row * WIDTH <= doc.pos
      modifies this, buffer
      ensures Valid() && doc == old(doc).MoveTo(old(|doc.cells| - CELLS + (row + 1) * WIDTH))
      ensures col == 0 && color == old(color) && NextLine(old(row), old(buffer[..]), color, row, buffer[..])
    {
      AppendShiftsWindow(doc);
      ghost var target := |doc.cells| - CELLS + (row + 1) * WIDTH;
      ghost var next := doc.MoveTo(target);
      col := 0;
      row := row + 1;
      if row == HEIGHT {
        Scroll();
        assert next.cells == doc.Scroll().cells;
      }
      doc := next;
    }

    method PutTab()
      requires Valid()
      modifies this, buffer
      ensures Valid() && doc == old(doc).Put(TAB)
      ensures color == old(color)
      ensures PutMeans(TAB, color, old(row), old(col), old(buffer[..]), row, col, buffer[..])
    {
      PutAtRowColumn(doc, row, col);
      TabMask(col);
      ghost var next := doc.Put(TAB);
      col := BitAnd(col + 4, TWO_64 - 4);
      if col >= WIDTH {
        NextRow();
      } else {
        doc := next;
      }
    }

    method PutBackspace()
      requires Valid()
      modifies this, buffer
      ensures Valid() && doc == old(doc).Put(BACKSPACE)
      ensures color == old(color)
      ensures PutMeans(BACKSPACE, color, old(row), old(col), old(buffer[..]), row, col, buffer[..])
    {
      PutAtRowColumn(doc, row, col);
      if col > 0 {
        EditInWindow(doc, row * WIDTH + col - 1, Blank(color));
        col := col - 1;
        buffer[row * WIDTH + col] := Blank(color);
      }
      doc := doc.Put(BACKSPACE);
    }

    /** Store a cell under the cursor. */
    method PutCell(e: Cell)
      requires Valid()
      modifies this`doc, buffer
      ensures Valid() && doc == old(doc).(cells := old(doc).cells[old(doc).pos := e])
      ensures buffer[..] == old(buffer[..])[row * WIDTH + col := e]
    {
      EditInWindow(doc, row * WIDTH + col, e);
      buffer[row * WIDTH + col] := e;
      doc := doc.(cells := doc.cells[doc.pos := e]);
    }

    method PutPlain(c: byte)
      requires Valid() && IsPlain(c)
      modifies this, buffer
      ensures Valid() && doc == old(doc).Put(c)
      ensures color == old(color)
      ensures PutMeans(c, color, old(row), old(col), old(buffer[..]), row, col, buffer[..])
    {
      PutCell(Entry(c, color));
      col := col + 1;
      if col == WIDTH {
        NextRow();
      } else {
        doc := doc.(pos := doc.pos + 1);
      }
    }

    /** vga_putchar: the document's edit, and what that is in terms of row, column and cells. */
    method PutChar(c: byte)
      requires Valid()
      modifies this, buffer
      ensures Valid() && doc == old(doc).Put(c)
      ensures color == old(color)
      ensures PutMeans(c, color, old(row), old(col), old(buffer[..]), row, col, buffer[..])
    {
      PutAtRowColumn(doc, row, col);
      if c == NEWLINE {
        col := 0;
        NextRow();
      } else if c == RETURN {
        doc := doc.Put(c);
        col := 0;
      } else if c == TAB {
        PutTab();
      } else if c == BACKSPACE {
        PutBackspace();
      } else {
        PutPlain(c);
      }
    }

    /** Characters up to the terminating NUL. */
    method WriteString(s: seq<byte>)
      requires Valid() && Terminated(s, 0)
      modifies this, buffer
      ensures Valid() && doc == PutAll(old(doc), Text(s, 0))
    {
      var p := 0;
      while s[p] != 0
        invariant Valid() && p < |s| && Terminated(s, p)
        invariant PutAll(doc, Text(s, p)) == PutAll(old(doc), Text(s, 0))
        decreases |s| - p
      {
        TextStep(s, p);
        PutChar(s[p]);
        p := p + 1;
      }
    }

    method SetCursor(r: nat, c: nat)
      requires Valid()
      modifies this
      ensures Valid() && doc == Apply(old(doc), Op.SetCursor(r, c))
      ensures color == old(color)
      ensures if r < 25 && c < 80 then row == r && col == c else row == old(row) && col == old(col)
    {
      if r < HEIGHT && c < WIDTH {
        row, col := r, c;
        doc := doc.(pos := |doc.cells| - CELLS + r * WIDTH + c);
      }
    }

    method Perform(op: Op)
      requires Valid() && op.Valid()
      modifies this, buffer
      ensures Valid() && doc == Apply(old(doc), op)
      ensures op.Clear? ==> row == 0 && col == 0 && forall i :: 0 <= i < CELLS ==> buffer[i] == Blank(color)
    {
      match op
      case PutChar(c) => PutChar(c);
      case Write(text) =>
        TextOfLiteral(text);
        WriteString(text + [0]);
      case SetColor(fg, bg) => SetColor(fg, bg);
      case ScrollUp(lines) => ScrollUp(lines);
      case SetCursor(r, c) => SetCursor(r, c);
      case Clear => Clear();
    }

    /** Any sequence of calls: the screen is the last 25 rows of the document edited likewise. */
    method PerformAll(ops: seq<Op>)
      requires Valid() && AllValid(ops)
      modifies this, buffer
      ensures Valid() && doc == Run(old(doc), ops)
      ensures buffer[..] == Run(old(doc), ops).Window()
    {
      var i := 0;
      while i < |ops|
        invariant Valid() && i <= |ops|
        invariant Run(doc, ops[i..]) == Run(old(doc), ops)
      {
        assert ops[i..][1..] == ops[i + 1..];
        Perform(ops[i]);
        i := i + 1;
      }
    }
  }
}
