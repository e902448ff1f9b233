/** The text terminal of kernel/vga.c: an 80x25 cell array with a cursor, proved to show the
    last 25 rows of an unbounded document that knows neither rows, wrapping nor scrolling. */
module VgaText {
  import opened Bytes
  import opened Bits

  type Cell = word

  const WIDTH: nat := 80
  const HEIGHT: nat := 25
  const CELLS: nat := 2000

  const BLANK_CHAR: byte := 32
  const NEWLINE: byte := 10
  const RETURN: byte := 13
  const TAB: byte := 9
  const BACKSPACE: byte := 8

  // Cells

  /** The character below the colour: a `char` of 0x80 or more is negative, so widening it sets
      every bit of the attribute byte. */
  function Entry(c: byte, color: byte): Cell {
    if c >= 0x80 then 0xFF00 + c else color * 256 + c
  }

  function Glyph(e: Cell): byte { e % 256 }

  function Attribute(e: Cell): byte { e / 256 }

  /** The character always survives in its cell; the attribute does exactly below 0x80
      (or when it is already 0xFF). */
  lemma EntryDecodes(c: byte, color: byte)
    ensures Glyph(Entry(c, color)) == c
    ensures Attribute(Entry(c, color)) == color <==> c < 0x80 || color == 0xFF
  {
    if c < 0x80 {
      QuotientUnique(color * 256 + c, 256, color, c);
    }
  }

  function Blank(color: byte): Cell { Entry(BLANK_CHAR, color) }

  function Blanks(n: nat, color: byte): (s: seq<Cell>)
    ensures |s| == n && forall i :: 0 <= i < n ==> s[i] == Blank(color)
  {
    seq(n, _ => Blank(color))
  }

  function Color(fg: nat, bg: nat): byte
    requires fg < 16 && bg < 16
  {
    fg + 16 * bg
  }

  // The document

  /** Where the row of position p begins. */
  function RowStart(p: nat): (r: nat)
    ensures r <= p < r + WIDTH && r % WIDTH == 0
  {
    p / WIDTH * WIDTH
  }

  /** The next multiple of four after p. */
  function TabStop(p: nat): (t: nat)
    ensures p < t <= p + 4 && t % 4 == 0
  {
    (p / 4 + 1) * 4
  }

  lemma RowInside(p: nat, lo: nat, hi: nat)
    requires lo % WIDTH == 0 && hi % WIDTH == 0 && lo <= p < hi
    ensures lo <= RowStart(p) && RowStart(p) + WIDTH <= hi && TabStop(p) <= RowStart(p) + WIDTH
  {
    var a, b, q, t := lo / WIDTH, hi / WIDTH, p / WIDTH, p / 4;
    assert lo == 80 * a && hi == 80 * b;
    assert 80 * q <= p < 80 * q + 80 && 4 * t <= p < 4 * t + 4;
    hide *;
    assert a <= q < b && t < 20 * (q + 1);
  }

  /** Everything ever shown, as one flat run of cells, and a position in it. A row is 80
      consecutive cells; the text simply continues from one row to the next. */
  datatype Document = Document(cells: seq<Cell>, pos: nat, color: byte) {

    ghost predicate Valid() {
      && |cells| >= CELLS && |cells| % WIDTH == 0
      && |cells| - CELLS <= pos < |cells|
    }

    /** The last 25 rows. */
    function Window(): (w: seq<Cell>)
      requires |cells| >= CELLS
      ensures |w| == CELLS
    {
      cells[|cells| - CELLS..]
    }

    /** Go to a position, appending a row of blanks when it is just past the end. */
    function MoveTo(p: nat): Document {
      if p == |cells| then Document(cells + Blanks(WIDTH, color), p, color)
      else this.(pos := p)
    }

    function Put(c: byte): Document
      requires Valid()
    {
      if c == NEWLINE then MoveTo(RowStart(pos) + WIDTH)
      else if c == RETURN then this.(pos := RowStart(pos))
      else if c == TAB then MoveTo(TabStop(pos))
      else if c == BACKSPACE then
        if pos == RowStart(pos) then this
        else Document(cells[pos - 1 := Blank(color)], pos - 1, color)
      else this.(cells := cells[pos := Entry(c, color)]).MoveTo(pos + 1)
    }

    /** Append a row of blanks and put the cursor on it, in the same column. */
    function Scroll(): Document {
      Document(cells + Blanks(WIDTH, color), |cells| + (pos - RowStart(pos)), color)
    }
  }

  function Fresh(color: byte): (d: Document)
    ensures d.Valid()
  {
    Document(Blanks(CELLS, color), 0, color)
  }

  lemma PutValid(d: Document, c: byte)
    requires d.Valid()
    ensures d.Put(c).Valid()
  {
    RowInside(d.pos, |d.cells| - CELLS, |d.cells|);
    hide RowStart, TabStop;
  }

  function PutAll(d: Document, text: seq<byte>): (r: Document)
    requires d.Valid()
    ensures r.Valid()
    decreases |text|
  {
    if text == [] then d
    else
      PutValid(d, text[0]);
      PutAll(d.Put(text[0]), text[1..])
  }

  function ScrollBy(d: Document, lines: int): (r: Document)
    requires d.Valid()
    ensures r.Valid()
    decreases if lines > 0 then lines else 0
  {
    if lines <= 0 then d else ScrollBy(d.Scroll(), lines - 1)
  }

  // Calls into the terminal

  datatype Op =
    | PutChar(c: byte)
    | Write(text: seq<byte>)
    | SetColor(fg: nat, bg: nat)
    | ScrollUp(lines: int)
    | SetCursor(row: nat, col: nat)
    | Clear
  {
    ghost predicate Valid() {
      match this
      case SetColor(fg, bg) => fg < 16 && bg < 16
      case Write(text) => 0 !in text
      case _ => true
    }
  }

  function Apply(d: Document, op: Op): (r: Document)
    requires d.Valid() && op.Valid()
    ensures r.Valid()
  {
    match op
    case PutChar(c) => PutValid(d, c); d.Put(c)
    case Write(text) => PutAll(d, text)
    case SetColor(fg, bg) => d.(color := Color(fg, bg))
    case ScrollUp(lines) => ScrollBy(d, lines)
    case SetCursor(row, col) =>
      if row < HEIGHT && col < WIDTH then d.(pos := |d.cells| - CELLS + row * WIDTH + col) else d
    case Clear => Fresh(d.color)
  }

  ghost predicate AllValid(ops: seq<Op>) {
    forall i :: 0 <= i < |ops| ==> ops[i].Valid()
  }

  function Run(d: Document, ops: seq<Op>): (r: Document)
    requires d.Valid() && AllValid(ops)
    ensures r.Valid()
    decreases |ops|
  {
    if ops == [] then d else Run(Apply(d, ops[0]), ops[1..])
  }

  lemma {:induction false} RunAppend(d: Document, a: seq<Op>, b: seq<Op>)
    requires d.Valid() && AllValid(a) && AllValid(b)
    ensures AllValid(a + b)
    ensures Run(d, a + b) == Run(Run(d, a), b)
    decreases |a|
  {
    if a == [] {
      assert a + b == b;
    } else {
      assert (a + b)[1..] == a[1..] + b;
      RunAppend(Apply(d, a[0]), a[1..], b);
    }
  }

  // What a document keeps, over whole runs

  /** Rows that have scrolled off are never touched again. */
  ghost predicate HistoryKept(d: Document, e: Document)
    requires d.Valid() && e.Valid()
  {
    |d.cells| <= |e.cells| && e.cells[..|d.cells| - CELLS] == d.cells[..|d.cells| - CELLS]
  }

  lemma HistoryKeptTrans(d: Document, e: Document, f: Document)
    requires d.Valid() && e.Valid() && f.Valid()
    requires HistoryKept(d, e) && HistoryKept(e, f)
    ensures HistoryKept(d, f)
  {
    var n := |d.cells| - CELLS;
    assert f.cells[..n] == f.cells[..|e.cells| - CELLS][..n];
    assert e.cells[..n] == e.cells[..|e.cells| - CELLS][..n];
  }

  lemma {:induction false} PutAllKeepsHistory(d: Document, text: seq<byte>)
    requires d.Valid()
    ensures HistoryKept(d, PutAll(d, text))
    decreases |text|
  {
    if text != [] {
      PutValid(d, text[0]);
      PutAllKeepsHistory(d.Put(text[0]), text[1..]);
      HistoryKeptTrans(d, d.Put(text[0]), PutAll(d, text));
    }
  }

  lemma {:induction false} ScrollKeepsHistory(d: Document, lines: int)
    requires d.Valid()
    ensures HistoryKept(d, ScrollBy(d, lines))
    decreases if lines > 0 then lines else 0
  {
    if lines > 0 {
      ScrollKeepsHistory(d.Scroll(), lines - 1);
      HistoryKeptTrans(d, d.Scroll(), ScrollBy(d, lines));
    }
  }

  lemma {:induction false} RunKeepsHistory(d: Document, ops: seq<Op>)
    requires d.Valid() && AllValid(ops) && Clear !in ops
    ensures HistoryKept(d, Run(d, ops))
    decreases |ops|
  {
    if ops != [] {
      match ops[0] {
        case PutChar(c) => PutValid(d, c);
        case Write(text) => PutAllKeepsHistory(d, text);
        case ScrollUp(lines) => ScrollKeepsHistory(d, lines);
        case _ =>
      }
      RunKeepsHistory(Apply(d, ops[0]), ops[1..]);
      HistoryKeptTrans(d, Apply(d, ops[0]), Run(d, ops));
    }
  }

  ghost predicate BlankFrom(d: Document, from: nat) {
    forall i :: from <= i < |d.cells| ==> Glyph(d.cells[i]) == BLANK_CHAR
  }

  /** Every row below the cursor shows only blanks. */
  ghost predicate BlankBelow(d: Document) {
    BlankFrom(d, RowStart(d.pos) + WIDTH)
  }

  lemma BlankGlyph(color: byte)
    ensures Glyph(Blank(color)) == BLANK_CHAR
  {
    EntryDecodes(BLANK_CHAR, color);
  }

  lemma RowsOrdered(p: nat, q: nat)
    requires RowStart(p) <= q
    ensures RowStart(p) <= RowStart(q)
  {
    var a, b := p / WIDTH, q / WIDTH;
    assert RowStart(p) == 80 * a && RowStart(q) == 80 * b && 80 * b <= q < 80 * b + 80;
  }

  lemma MoveBlankBelow(d: Document, p: nat, row: nat)
    requires BlankFrom(d, RowStart(row) + WIDTH) && RowStart(row) <= p <= |d.cells|
    ensures BlankBelow(d.MoveTo(p))
  {
    BlankGlyph(d.color);
    RowsOrdered(row, p);
  }

  lemma PutBlankBelow(d: Document, c: byte)
    requires d.Valid() && BlankBelow(d)
    ensures d.Put(c).Valid() && BlankBelow(d.Put(c))
  {
    PutValid(d, c);
    RowInside(d.pos, |d.cells| - CELLS, |d.cells|);
    if c == NEWLINE {
      MoveBlankBelow(d, RowStart(d.pos) + WIDTH, d.pos);
    } else if c == TAB {
      MoveBlankBelow(d, TabStop(d.pos), d.pos);
    } else if c == RETURN {
      RowsOrdered(d.pos, RowStart(d.pos));
    } else if c == BACKSPACE {
      if d.pos != RowStart(d.pos) { RowsOrdered(d.pos, d.pos - 1); }
    } else {
      MoveBlankBelow(d.(cells := d.cells[d.pos := Entry(c, d.color)]), d.pos + 1, d.pos);
    }
  }

  lemma {:induction false} PutAllBlankBelow(d: Document, text: seq<byte>)
    requires d.Valid() && BlankBelow(d)
    ensures BlankBelow(PutAll(d, text))
    decreases |text|
  {
    if text != [] {
      PutBlankBelow(d, text[0]);
      PutAllBlankBelow(d.Put(text[0]), text[1..]);
    }
  }

  lemma {:induction false} ScrollBlankBelow(d: Document, lines: int)
    requires d.Valid() && BlankBelow(d)
    ensures BlankBelow(ScrollBy(d, lines))
    decreases if lines > 0 then lines else 0
  {
    if lines > 0 {
      BlankGlyph(d.color);
      ScrollBlankBelow(d.Scroll(), lines - 1);
    }
  }

  ghost predicate NeverSetsCursor(ops: seq<Op>) {
    forall i :: 0 <= i < |ops| ==> !ops[i].SetCursor?
  }

  lemma {:induction false} RunBlankBelow(d: Document, ops: seq<Op>)
    requires d.Valid() && BlankBelow(d)
    requires AllValid(ops) && NeverSetsCursor(ops)
    ensures BlankBelow(Run(d, ops))
    decreases |ops|
  {
    if ops != [] {
      match ops[0] {
        case PutChar(c) => PutBlankBelow(d, c);
        case Write(text) => PutAllBlankBelow(d, text);
        case ScrollUp(lines) => ScrollBlankBelow(d, lines);
        case _ => BlankGlyph(d.color);
      }
      RunBlankBelow(Apply(d, ops[0]), ops[1..]);
    }
  }

  /** set_cursor keeps that exactly when it is out of range, or the rows after the one it moves to are
      blank as far as the row it left. */
  lemma SetCursorExact(d: Document, row: nat, col: nat)
    requires d.Valid() && BlankBelow(d)
    ensures BlankBelow(Apply(d, SetCursor(row, col))) <==>
            row >= HEIGHT || col >= WIDTH
            || forall i :: |d.cells| - CELLS + (row + 1) * WIDTH <= i < RowStart(d.pos) + WIDTH && i < |d.cells| ==>
                 Glyph(d.cells[i]) == BLANK_CHAR
  {
    if row < HEIGHT && col < WIDTH {
      RowOfWindow(d, row, col);
    }
  }

  lemma RowOfWindow(d: Document, row: nat, col: nat)
    requires d.Valid() && row < HEIGHT && col < WIDTH
    ensures RowStart(|d.cells| - CELLS + row * WIDTH + col) == |d.cells| - CELLS + row * WIDTH
  {
    var q := |d.cells| / WIDTH - HEIGHT + row;
    QuotientUnique(|d.cells| - CELLS + row * WIDTH + col, WIDTH, q, col);
  }

  /** In particular moving the cursor up past text breaks it. */
  lemma SetCursorBreaksBlankBelow()
    ensures var ops := [SetCursor(1, 0), PutChar(65), SetCursor(0, 0)];
            AllValid(ops) && !BlankBelow(Run(Fresh(7), ops))
  {
    var d := Fresh(7);
    var d1 := Apply(d, SetCursor(1, 0));
    var d2 := Apply(d1, PutChar(65));
    var d3 := Apply(d2, SetCursor(0, 0));
    assert d3.cells[80] == Entry(65, 7) && d3.pos == 0;
    EntryDecodes(65, 7);
    var ops := [SetCursor(1, 0), PutChar(65), SetCursor(0, 0)];
    assert ops[1..] == [PutChar(65), SetCursor(0, 0)] && ops[1..][1..] == [SetCursor(0, 0)];
    assert Run(d2, [SetCursor(0, 0)]) == d3;
    assert Run(d1, ops[1..]) == d3;
  }

  predicate IsPlain(c: byte) {
    c != NEWLINE && c != RETURN && c != TAB && c != BACKSPACE
  }

  /** Text without control characters lands in consecutive cells, whatever row or window
      boundary it crosses: one cell a character, nothing else in the document changes. */
  lemma {:induction false} PlainTextConsecutive(d: Document, text: seq<byte>)
    requires d.Valid() && forall i :: 0 <= i < |text| ==> IsPlain(text[i])
    ensures var e := PutAll(d, text);
            && e.pos == d.pos + |text| && e.color == d.color && |e.cells| >= |d.cells|
            && e.cells[..d.pos] == d.cells[..d.pos]
            && (forall i :: 0 <= i < |text| ==> e.cells[d.pos + i] == Entry(text[i], d.color))
            && (forall i :: e.pos <= i < |d.cells| ==> e.cells[i] == d.cells[i])
            && (forall i :: |d.cells| <= i < |e.cells| && e.pos <= i ==> e.cells[i] == Blank(d.color))
    decreases |text|
  {
    if text != [] {
      PutValid(d, text[0]);
      var d1 := d.Put(text[0]);
      PlainTextConsecutive(d1, text[1..]);
      var e := PutAll(d, text);
      assert e == PutAll(d1, text[1..]);
      assert d1.cells[..d.pos] == d.cells[..d.pos] && d1.cells[d.pos] == Entry(text[0], d.color);
      assert e.cells[..d.pos] == e.cells[..d1.pos][..d.pos];
      assert e.cells[d.pos] == e.cells[..d1.pos][d.pos];
      forall i | 1 <= i < |text| ensures e.cells[d.pos + i] == Entry(text[i], d.color) {
        assert text[i] == text[1..][i - 1];
        assert e.cells[d1.pos + (i - 1)] == Entry(text[1..][i - 1], d.color);
      }
    }
  }

  lemma PutAllOne(d: Document, c: byte)
    requires d.Valid()
    ensures d.Put(c).Valid() && PutAll(d, [c]) == d.Put(c)
  {
    PutValid(d, c);
    assert [c][1..] == [];
    assert PutAll(d.Put(c), []) == d.Put(c);
  }

  lemma {:induction false} PutAllAppend(d: Document, a: seq<byte>, b: seq<byte>)
    requires d.Valid()
    ensures PutAll(d, a + b) == PutAll(PutAll(d, a), b)
    decreases |a|
  {
    if a == [] {
      assert a + b == b;
    } else {
      PutValid(d, a[0]);
      assert (a + b)[1..] == a[1..] + b;
      PutAllAppend(d.Put(a[0]), a[1..], b);
    }
  }

  /** A text stands in the document from position p on, in that colour. */
  ghost predicate Stands(d: Document, p: nat, text: seq<byte>, color: byte) {
    p + |text| <= |d.cells| && forall i :: 0 <= i < |text| ==> d.cells[p + i] == Entry(text[i], color)
  }

  /** Nothing before position p has changed. */
  ghost predicate Kept(d: Document, e: Document, p: nat) {
    p <= |d.cells| <= |e.cells| && e.cells[..p] == d.cells[..p]
  }

  lemma KeptTrans(d: Document, e: Document, f: Document, p: nat, q: nat)
    requires Kept(d, e, p) && Kept(e, f, q) && p <= q
    ensures Kept(d, f, p)
  {
    assert f.cells[..p] == f.cells[..q][..p] && e.cells[..p] == e.cells[..q][..p];
  }

  lemma StandsLater(e: Document, f: Document, p: nat, text: seq<byte>, color: byte, q: nat)
    requires Stands(e, p, text, color) && Kept(e, f, q) && p + |text| <= q
    ensures Stands(f, p, text, color)
  {
    forall i | 0 <= i < |text| ensures f.cells[p + i] == Entry(text[i], color) {
      assert f.cells[..q][p + i] == e.cells[..q][p + i];
    }
  }

  /** Plain text is written where the cursor is. */
  lemma TextStands(d: Document, text: seq<byte>)
    requires d.Valid() && forall i :: 0 <= i < |text| ==> IsPlain(text[i])
    ensures var e := PutAll(d, text);
            && Stands(e, d.pos, text, d.color) && Kept(d, e, d.pos)
            && e.pos == d.pos + |text| && e.color == d.color
  {
    PlainTextConsecutive(d, text);
  }

  lemma NewlineKeeps(d: Document)
    requires d.Valid()
    ensures var e := d.Put(NEWLINE);
            && e.Valid() && Kept(d, e, |d.cells|) && e.pos == (d.pos / 80 + 1) * 80 && e.color == d.color
  {
    PutValid(d, NEWLINE);
  }

  /** A line of plain text and a newline: the text stands where the cursor was, and the cursor is at
      the start of the row after the one the text ends in. */
  lemma LineStands(d: Document, text: seq<byte>)
    requires d.Valid() && forall i :: 0 <= i < |text| ==> IsPlain(text[i])
    ensures var e := PutAll(d, text + [NEWLINE]);
            && Stands(e, d.pos, text, d.color) && Kept(d, e, d.pos)
            && e.pos == ((d.pos + |text|) / 80 + 1) * 80 && e.color == d.color
  {
    TextStands(d, text);
    var m := PutAll(d, text);
    PutAllAppend(d, text, [NEWLINE]);
    PutAllOne(m, NEWLINE);
    NewlineKeeps(m);
    var e := m.Put(NEWLINE);
    assert Kept(m, e, m.pos) by {
      assert e.cells[..m.pos] == e.cells[..|m.cells|][..m.pos];
    }
    hide Document.Put, PutAll;
    StandsLater(m, e, d.pos, text, d.color, m.pos);
    KeptTrans(d, m, e, d.pos, m.pos);
  }

  lemma RunOne(d: Document, op: Op)
    requires d.Valid() && op.Valid()
    ensures AllValid([op]) && Run(d, [op]) == Apply(d, op)
  {
    assert [op][1..] == [];
    assert Run(Apply(d, op), []) == Apply(d, op);
  }
}
