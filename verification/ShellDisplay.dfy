/** What the commands of the shell show: their text in the cells of the document, where it stands,
    in which colour, and where the next prompt is. */
module ShellDisplay {
  import opened Bytes
  import opened CString
  import opened VgaText
  import opened LineEditor
  import opened Shell

  /** Where the row after the cursor's begins: Enter moves there first. */
  function NextRowOf(p: nat): nat { (p / 80 + 1) * 80 }

  /** The answer to a line is one text, on the row after the line that was entered; the prompt
      follows at the start of a row of its own; nothing above has changed. */
  ghost predicate Answered(d: Document, e: Document, text: seq<byte>, prompt: seq<byte>) {
    var p := NextRowOf(d.pos);
    var q := NextRowOf(p + |text|);
    && Stands(e, p, text, d.color) && Kept(d, e, p)
    && Stands(e, q, prompt, d.color) && e.pos == q + |prompt| && e.color == d.color
  }

  lemma EnterRow(d: Document)
    requires d.Valid()
    ensures var f := d.Put(NEWLINE);
            && f.Valid() && f.pos == NextRowOf(d.pos) && f.color == d.color && f.pos % 80 == 0
            && f.pos <= |d.cells| && Kept(d, f, f.pos) && Kept(d, f, |d.cells|)
  {
    NewlineKeeps(d);
    RowInside(d.pos, |d.cells| - CELLS, |d.cells|);
    var f := d.Put(NEWLINE);
    assert f.cells[..f.pos] == f.cells[..|d.cells|][..f.pos];
  }

  /** The prompt is written where the output ends and changes nothing before. */
  lemma PromptStands(d: Document, line: seq<byte>, w: Findings, prompt: seq<byte>)
    requires d.Valid() && Printable(line) && |line| <= MAX_LINE && Printable(prompt) && line != REBOOT
    ensures var a, e := AfterOutput(d, line, w), AfterEnter(d, line, w, prompt);
            && Kept(a, e, a.pos) && Stands(e, a.pos, prompt, a.color)
            && e.pos == a.pos + |prompt| && e.color == a.color
  {
    hide AfterOutput;
    TextStands(AfterOutput(d, line, w), prompt);
  }

  lemma AnsweredBy(d: Document, f: Document, a: Document, e: Document, text: seq<byte>, prompt: seq<byte>)
    requires f.pos == NextRowOf(d.pos) && Kept(d, f, f.pos)
    requires Stands(a, f.pos, text, d.color) && Kept(f, a, f.pos) && a.pos == NextRowOf(f.pos + |text|)
    requires Kept(a, e, a.pos) && Stands(e, a.pos, prompt, d.color)
    requires e.pos == a.pos + |prompt| && e.color == d.color
    ensures Answered(d, e, text, prompt)
  {
    assert a.pos > f.pos + |text|;
    hide Stands, Kept;
    StandsLater(a, e, f.pos, text, d.color, a.pos);
    KeptTrans(f, a, e, f.pos, a.pos);
    KeptTrans(d, f, e, f.pos, f.pos);
  }

  /** Output that is one text and a newline. */
  lemma TextAnswered(d: Document, line: seq<byte>, w: Findings, prompt: seq<byte>, text: seq<byte>)
    requires d.Valid() && Printable(line) && |line| <= MAX_LINE && Printable(prompt) && Printable(text)
    requires d.Put(NEWLINE).Valid() && line != REBOOT
    requires AfterOutput(d, line, w) == PutAll(d.Put(NEWLINE), text + [NEWLINE])
    ensures Answered(d, AfterEnter(d, line, w, prompt), text, prompt)
  {
    hide Stands, Kept, PutAll, Run, Answered, AfterOutput, AfterEnter;
    EnterRow(d);
    var f := d.Put(NEWLINE);
    LineStands(f, text);
    PromptStands(d, line, w, prompt);
    hide *;
    AnsweredBy(d, f, AfterOutput(d, line, w), AfterEnter(d, line, w, prompt), text, prompt);
  }

  lemma OneWrite(f: Document, text: seq<byte>)
    requires f.Valid() && 0 !in text
    ensures AllValid([Op.Write(text)]) && Run(f, [Op.Write(text)]) == PutAll(f, text)
  {
    RunOne(f, Op.Write(text));
  }

  /** "echo" and a text: the text. */
  lemma EchoShown(d: Document, t: seq<byte>, w: Findings, prompt: seq<byte>)
    requires d.Valid() && Printable(t) && |t| <= 250 && Printable(prompt)
    ensures Printable(Ascii("echo ") + t) && |Ascii("echo ") + t| <= MAX_LINE
    ensures Answered(d, AfterEnter(d, Ascii("echo ") + t, w, prompt), t, prompt)
  {
    var line := Ascii("echo ") + t;
    CommandMeaning(line);
    CommandMeaning(REBOOT);
    RebootOnly(line);
    assert line[5..] == t;
    OutputAllowed(line, w);
    EnterRow(d);
    var f := d.Put(NEWLINE);
    assert Output(CommandOf(line), w) == [Op.Write(t)] + [Op.PutChar(NEWLINE)];
    hide CommandOf, Document.Put, Output, Ascii;
    OneWrite(f, t);
    RunAppend(f, [Op.Write(t)], [Op.PutChar(NEWLINE)]);
    RunOne(PutAll(f, t), Op.PutChar(NEWLINE));
    PutAllAppend(f, t, [NEWLINE]);
    PutAllOne(PutAll(f, t), NEWLINE);
    assert AfterOutput(d, line, w) == PutAll(f, t + [NEWLINE]);
    hide AfterOutput, AfterEnter, Run, PutAll;
    TextAnswered(d, line, w, prompt, t);
  }

  /** A line that is no command. */
  predicate NoCommand(line: seq<byte>) {
    && line != [] && line != Ascii("help") && line != Ascii("clear") && line != Ascii("disks")
    && line != Ascii("pci") && line != Ascii("reboot")
    && !(Ascii("read ") <= line) && !(Ascii("echo ") <= line)
  }

  lemma NoCommandIsUnknown(line: seq<byte>)
    requires NoCommand(line)
    ensures CommandOf(line) == Unknown(line) && line != REBOOT
  {
    CommandMeaning(line);
    RebootOnly(line);
    hide Ascii;
  }

  /** Such a line, up to 235 characters: the message and the line. */
  lemma UnknownShown(d: Document, line: seq<byte>, w: Findings, prompt: seq<byte>)
    requires d.Valid() && Printable(line) && |line| <= 235 && Printable(prompt) && NoCommand(line)
    ensures Answered(d, AfterEnter(d, line, w, prompt), Ascii("Commande inconnue: ") + line, prompt)
  {
    NoCommandIsUnknown(line);
    OutputAllowed(line, w);
    UnknownTextShape(line);
    EnterRow(d);
    var text := Ascii("Commande inconnue: ") + line;
    assert Output(CommandOf(line), w) == [Op.Write(text + [NEWLINE])];
    hide CommandOf, Document.Put, Output, Ascii, NoCommand;
    OneWrite(d.Put(NEWLINE), text + [NEWLINE]);
    assert AfterOutput(d, line, w) == PutAll(d.Put(NEWLINE), text + [NEWLINE]);
    hide AfterOutput, AfterEnter, Run, PutAll;
    TextAnswered(d, line, w, prompt, text);
  }

  /** A longer one: the first 255 characters of that, and the prompt right behind them. */
  lemma LongUnknownShown(d: Document, line: seq<byte>, w: Findings, prompt: seq<byte>)
    requires d.Valid() && Printable(line) && 235 < |line| <= MAX_LINE && Printable(prompt) && NoCommand(line)
    ensures var e, p := AfterEnter(d, line, w, prompt), NextRowOf(d.pos);
            && Stands(e, p, (Ascii("Commande inconnue: ") + line)[..255], d.color) && Kept(d, e, p)
            && Stands(e, p + 255, prompt, d.color) && e.pos == p + 255 + |prompt|
  {
    NoCommandIsUnknown(line);
    OutputAllowed(line, w);
    UnknownTextShape(line);
    EnterRow(d);
    var f, text := d.Put(NEWLINE), (Ascii("Commande inconnue: ") + line)[..255];
    assert UnknownText(line) == text;
    assert Output(CommandOf(line), w) == [Op.Write(text)];
    OneWrite(f, text);
    TextStands(f, text);
    PromptStands(d, line, w, prompt);
    var a, e := AfterOutput(d, line, w), AfterEnter(d, line, w, prompt);
    assert a == PutAll(f, text);
    hide AfterOutput, AfterEnter, Document.Put, PutAll, Run, Output, CommandOf, UnknownText, Ascii, NoCommand;
    StandsLater(a, e, f.pos, text, d.color, a.pos);
    KeptTrans(f, a, e, f.pos, a.pos);
    KeptTrans(d, f, e, f.pos, f.pos);
  }

  /** "reboot": its message, and no prompt. */
  lemma RebootShown(d: Document, w: Findings, prompt: seq<byte>)
    requires d.Valid()
    ensures Printable(Ascii("reboot")) && |Ascii("reboot")| <= MAX_LINE
    ensures var e, p := AfterEnter(d, Ascii("reboot"), w, prompt), NextRowOf(d.pos);
            && Stands(e, p, Ascii("Redemarrage..."), d.color) && Kept(d, e, p) && e.pos == p + 80
  {
    hide Document.Put, PutAll, Stands, Kept;
    var line, text := Ascii("reboot"), Ascii("Redemarrage...");
    CommandMeaning(line);
    RebootOnly(line);
    OutputAllowed(line, w);
    EnterRow(d);
    var f := d.Put(NEWLINE);
    assert Output(CommandOf(line), w) == [Op.Write(text + [NEWLINE])];
    OneWrite(f, text + [NEWLINE]);
    LineStands(f, text);
    var e := AfterEnter(d, line, w, prompt);
    assert e == PutAll(f, text + [NEWLINE]);
    hide AfterOutput, AfterEnter, Run, Output, CommandOf, Ascii;
    assert (f.pos + 14) / 80 == f.pos / 80;
    KeptTrans(d, f, e, f.pos, f.pos);
  }

  /** An empty line: only the prompt. */
  lemma NothingShown(d: Document, w: Findings, prompt: seq<byte>)
    requires d.Valid() && Printable(prompt)
    ensures var e, p := AfterEnter(d, [], w, prompt), NextRowOf(d.pos);
            Stands(e, p, prompt, d.color) && Kept(d, e, p) && e.pos == p + |prompt|
  {
    EnterRow(d);
    CommandMeaning([]);
    PromptStands(d, [], w, prompt);
    var f, e := d.Put(NEWLINE), AfterEnter(d, [], w, prompt);
    assert AfterOutput(d, [], w) == f;
    KeptTrans(d, f, e, f.pos, f.pos);
  }

  /** "clear": the prompt at the top of blank cells in the colour in use. */
  lemma ClearShown(d: Document, w: Findings, prompt: seq<byte>)
    requires d.Valid() && Printable(prompt) && |prompt| < CELLS
    ensures Printable(Ascii("clear")) && |Ascii("clear")| <= MAX_LINE
    ensures var e := AfterEnter(d, Ascii("clear"), w, prompt);
            && Stands(e, 0, prompt, d.color) && e.pos == |prompt| && |e.cells| == CELLS
            && forall i :: |prompt| <= i < CELLS ==> e.cells[i] == Blank(d.color)
  {
    var line := Ascii("clear");
    CommandMeaning(line);
    RebootOnly(line);
    assert line != REBOOT;
    OutputAllowed(line, w);
    EnterRow(d);
    var f := d.Put(NEWLINE);
    assert Output(CommandOf(line), w) == [Op.Clear];
    RunOne(f, Op.Clear);
    assert AfterOutput(d, line, w) == Fresh(d.color);
    hide AfterOutput, Output, CommandOf, Ascii;
    PlainTextConsecutive(Fresh(d.color), prompt);
    ShortTextFits(Fresh(d.color), prompt);
  }

  /** Text that ends before the last cell appends no row. */
  lemma {:induction false} ShortTextFits(d: Document, text: seq<byte>)
    requires d.Valid() && (forall i :: 0 <= i < |text| ==> IsPlain(text[i])) && d.pos + |text| < |d.cells|
    ensures |PutAll(d, text).cells| == |d.cells|
    decreases |text|
  {
    if text != [] {
      PutValid(d, text[0]);
      ShortTextFits(d.Put(text[0]), text[1..]);
    }
  }

  // Answers of several lines

  function Concat(texts: seq<CText>): (s: seq<byte>)
    ensures 0 !in s
  {
    if texts == [] then [] else texts[0] + Concat(texts[1..])
  }

  /** Writing texts one after the other is writing them as one. */
  lemma {:induction false} WritesAreOne(f: Document, texts: seq<CText>)
    requires f.Valid()
    ensures AllValid(Writes(texts)) && Run(f, Writes(texts)) == PutAll(f, Concat(texts))
    decreases |texts|
  {
    if texts != [] {
      var rest := texts[1..];
      assert Writes(texts)[1..] == Writes(rest);
      WritesAreOne(PutAll(f, texts[0]), rest);
      PutAllAppend(f, texts[0], Concat(rest));
      hide PutAll;
    }
  }

  /** Texts, then one more operation that writes a text. */
  lemma WritesAndText(f: Document, texts: seq<CText>, last: CText)
    requires f.Valid()
    ensures var ops := Writes(texts) + [Op.Write(last)];
            AllValid(ops) && Run(f, ops) == PutAll(f, Concat(texts) + last)
  {
    WritesAreOne(f, texts);
    OneWrite(PutAll(f, Concat(texts)), last);
    RunAppend(f, Writes(texts), [Op.Write(last)]);
    PutAllAppend(f, Concat(texts), last);
    hide PutAll, Run, Writes, Concat;
  }

  /** "read" and anything: what the layers below report, and the message or the end of the dump. */
  lemma ReadShown(d: Document, args: seq<byte>, w: Findings)
    requires d.Valid() && Printable(args) && |args| <= 250
    ensures Printable(Ascii("read ") + args) && |Ascii("read ") + args| <= MAX_LINE && d.Put(NEWLINE).Valid()
    ensures AfterOutput(d, Ascii("read ") + args, w) ==
            PutAll(d.Put(NEWLINE), match w.read
                                   case NoSuchDisk => Ascii("Disque invalide") + [NEWLINE]
                                   case ReadFailed(reports) => Concat(reports) + (Ascii("Erreur lecture") + [NEWLINE])
                                   case Dump(pieces) => Concat(pieces) + [NEWLINE])
  {
    var line := Ascii("read ") + args;
    CommandMeaning(line);
    OutputAllowed(line, w);
    EnterRow(d);
    var f := d.Put(NEWLINE);
    hide CommandOf, Document.Put, Ascii, Concat, Writes, PutAll;
    match w.read
    case NoSuchDisk =>
      OneWrite(f, Ascii("Disque invalide") + [NEWLINE]);
    case ReadFailed(reports) =>
      WritesAndText(f, reports, Ascii("Erreur lecture") + [NEWLINE]);
    case Dump(pieces) =>
      WritesAreOne(f, pieces);
      RunAppend(f, Writes(pieces), [Op.PutChar(NEWLINE)]);
      RunOne(PutAll(f, Concat(pieces)), Op.PutChar(NEWLINE));
      PutAllAppend(f, Concat(pieces), [NEWLINE]);
      PutAllOne(PutAll(f, Concat(pieces)), NEWLINE);
  }

  /** Text never changes anything above the row it starts in. */
  lemma {:induction false} TextStaysBelow(d: Document, text: seq<byte>)
    requires d.Valid()
    ensures Kept(d, PutAll(d, text), RowStart(d.pos))
    decreases |text|
  {
    if text != [] {
      var e := d.Put(text[0]);
      PutStaysBelow(d, text[0]);
      TextStaysBelow(e, text[1..]);
      KeptTrans(d, e, PutAll(e, text[1..]), RowStart(d.pos), RowStart(e.pos));
    }
  }

  lemma PutStaysBelow(d: Document, c: byte)
    requires d.Valid()
    ensures var e := d.Put(c); e.Valid() && Kept(d, e, RowStart(d.pos)) && RowStart(d.pos) <= RowStart(e.pos)
  {
    PutValid(d, c);
    var e := d.Put(c);
    RowInside(d.pos, |d.cells| - CELLS, |d.cells|);
    RowsOrdered(d.pos, e.pos);
    assert e.cells[..RowStart(d.pos)] == d.cells[..RowStart(d.pos)];
  }

  /** A list under a yellow title with a row free above it, its body in white. */
  ghost predicate Listed(d: Document, e: Document, title: seq<byte>, body: seq<byte>) {
    var p := NextRowOf(d.pos);
    && Stands(e, p + 80, title, 14) && Kept(d, e, p)
    && exists t: Document :: t.Valid() && t.pos == p + 160 && t.color == 15 && e == PutAll(t, body)
  }

  lemma RunFirst(f: Document, op: Op, rest: seq<Op>)
    requires f.Valid() && op.Valid() && AllValid(rest)
    ensures AllValid([op] + rest) && Run(f, [op] + rest) == Run(Apply(f, op), rest)
  {
    assert ([op] + rest)[1..] == rest;
  }

  /** The document with the title. */
  ghost function Titled(f: Document, text: seq<byte>): (t: Document)
    requires f.Valid() && Printable(text)
    ensures t.Valid()
  {
    var f1 := f.(color := 14);
    PutValid(f1, NEWLINE);
    PutAll(f1.Put(NEWLINE), text + [NEWLINE]).(color := 15)
  }

  lemma TitleRuns(f: Document, title: string, rest: seq<Op>)
    requires f.Valid() && AllValid(rest)
    ensures AllValid(Title(title) + rest)
    ensures Run(f, Title(title) + rest) == Run(Titled(f, Ascii(title)), rest)
  {
    var f1 := f.(color := 14);
    PutValid(f1, NEWLINE);
    var g, text := f1.Put(NEWLINE), Ascii(title);
    var h := PutAll(g, text + [NEWLINE]);
    assert Color(14, 0) == 14 && Color(15, 0) == 15;
    var o1, o2, o3, o4 := Op.SetColor(14, 0), Op.Write([NEWLINE]), Line(title), Op.SetColor(15, 0);
    assert Title(title) + rest == [o1] + ([o2] + ([o3] + ([o4] + rest)));
    PutAllOne(f1, NEWLINE);
    assert o3 == Op.Write(text + [NEWLINE]);
    hide Run, PutAll, Document.Put, Ascii, Title, Line;
    RunFirst(h, o4, rest);
    RunFirst(g, o3, [o4] + rest);
    RunFirst(f1, o2, [o3] + ([o4] + rest));
    RunFirst(f, o1, [o2] + ([o3] + ([o4] + rest)));
  }

  lemma TitleStands(f: Document, text: seq<byte>)
    requires f.Valid() && f.pos % 80 == 0 && Printable(text) && |text| < 80 && f.pos <= |f.cells|
    ensures var t := Titled(f, text);
            && t.pos == f.pos + 160 && t.color == 15
            && Stands(t, f.pos + 80, text, 14) && Kept(f, t, f.pos)
  {
    var f1 := f.(color := 14);
    EnterRow(f1);
    var g := f1.Put(NEWLINE);
    assert g.pos == f.pos + 80 && Kept(f, g, f.pos) by {
      assert g.cells[..f.pos] == g.cells[..|f1.cells|][..f.pos];
    }
    LineStands(g, text);
    hide PutAll, Document.Put;
    assert (g.pos + |text|) / 80 == g.pos / 80;
    KeptTrans(f, g, PutAll(g, text + [NEWLINE]), f.pos, g.pos);
  }

  lemma ListShown(d: Document, e: Document, title: seq<byte>, body: seq<byte>)
    requires d.Valid() && Printable(title) && |title| < 80 && 0 !in body
    requires d.Put(NEWLINE).Valid() && e == PutAll(Titled(d.Put(NEWLINE), title), body)
    ensures Listed(d, e, title, body)
  {
    hide PutAll, Document.Put, Titled, Stands, Kept;
    EnterRow(d);
    var f := d.Put(NEWLINE);
    TitleStands(f, title);
    var t := Titled(f, title);
    TextStaysBelow(t, body);
    assert RowStart(t.pos) == t.pos;
    StandsLater(t, e, f.pos + 80, title, 14, t.pos);
    KeptTrans(f, t, e, f.pos, t.pos);
    KeptTrans(d, f, e, f.pos, f.pos);
  }

  /** "disks": the title, and a line for no disks or what there is to say of each. */
  lemma DisksShown(d: Document, w: Findings)
    requires d.Valid()
    ensures Printable(Ascii("disks")) && |Ascii("disks")| <= MAX_LINE
    ensures Listed(d, AfterOutput(d, Ascii("disks"), w), Ascii("=== Disques detectes ==="),
                   if w.disks.None? then Ascii("  Aucun disque detecte") + [NEWLINE]
                   else Concat(w.disks.value) + [NEWLINE])
  {
    var line, title := Ascii("disks"), "=== Disques detectes ===";
    CommandMeaning(line);
    OutputAllowed(line, w);
    EnterRow(d);
    var f := d.Put(NEWLINE);
    var t := Titled(f, Ascii(title));
    var e := AfterOutput(d, line, w);
    hide CommandOf, Document.Put, Concat, Writes, PutAll, Titled, Title, Ascii, Run;
    if w.disks.None? {
      var body := Ascii("  Aucun disque detecte") + [NEWLINE];
      OneWrite(t, body);
      TitleRuns(f, title, [Line("  Aucun disque detecte")]);
      ListShown(d, e, Ascii(title), body);
    } else {
      WritesAndText(t, w.disks.value, [NEWLINE]);
      var ops := Writes(w.disks.value) + [Op.Write([NEWLINE])];
      TitleRuns(f, title, ops);
      ListShown(d, e, Ascii(title), Concat(w.disks.value) + [NEWLINE]);
    }
  }

  lemma JoinThree<T>(a: seq<T>, b: seq<T>, c: seq<T>)
    ensures a + b + c == a + (b + c)
  {
  }

  /** "pci": the same for the functions found. */
  lemma PciShown(d: Document, w: Findings)
    requires d.Valid()
    ensures Printable(Ascii("pci")) && |Ascii("pci")| <= MAX_LINE
    ensures Listed(d, AfterOutput(d, Ascii("pci"), w), Ascii("=== PCI Devices ==="), Concat(w.functions) + [NEWLINE])
  {
    var line, title := Ascii("pci"), "=== PCI Devices ===";
    CommandMeaning(line);
    OutputAllowed(line, w);
    EnterRow(d);
    var f := d.Put(NEWLINE);
    var t := Titled(f, Ascii(title));
    var e := AfterOutput(d, line, w);
    hide CommandOf, Document.Put, Concat, Writes, PutAll, Titled, Title, Ascii, Run;
    WritesAndText(t, w.functions, [NEWLINE]);
    var ops := Writes(w.functions) + [Op.Write([NEWLINE])];
    JoinThree(Title(title), Writes(w.functions), [Op.Write([NEWLINE])]);
    TitleRuns(f, title, ops);
    ListShown(d, e, Ascii(title), Concat(w.functions) + [NEWLINE]);
  }

  // The help text

  /** Short lines stand on successive rows. */
  ghost predicate LinesStand(e: Document, p: nat, lines: seq<string>, color: byte) {
    forall i :: 0 <= i < |lines| ==> Stands(e, p + 80 * i, Ascii(lines[i]), color)
  }

  function Lines(lines: seq<string>): (ops: seq<Op>)
    ensures |ops| == |lines| && forall i :: 0 <= i < |ops| ==> ops[i] == Line(lines[i]) && ops[i].Valid()
  {
    seq(|lines|, i requires 0 <= i < |lines| => Line(lines[i]))
  }

  lemma {:induction false} LinesShown(f: Document, lines: seq<string>)
    requires f.Valid() && f.pos % 80 == 0 && f.pos <= |f.cells|
    requires forall i :: 0 <= i < |lines| ==> |lines[i]| < 80
    ensures AllValid(Lines(lines))
    ensures var e := Run(f, Lines(lines));
            && LinesStand(e, f.pos, lines, f.color) && Kept(f, e, f.pos)
            && e.pos == f.pos + 80 * |lines| && e.color == f.color
    decreases |lines|
  {
    if lines != [] {
      var text := Ascii(lines[0]);
      LineStands(f, text);
      var m := PutAll(f, text + [NEWLINE]);
      assert (f.pos + |text|) / 80 == f.pos / 80;
      assert Lines(lines) == [Line(lines[0])] + Lines(lines[1..]);
      assert Line(lines[0]) == Op.Write(text + [NEWLINE]);
      hide PutAll, Ascii, Line, Run, Lines, Stands, Kept, LinesStand;
      LinesShown(m, lines[1..]);
      RunFirst(f, Op.Write(text + [NEWLINE]), Lines(lines[1..]));
      LinesJoin(f, m, Run(m, Lines(lines[1..])), lines);
    }
  }

  lemma LinesJoin(f: Document, m: Document, e: Document, lines: seq<string>)
    requires lines != [] && |lines[0]| < 80 && m.pos == f.pos + 80
    requires Stands(m, f.pos, Ascii(lines[0]), f.color) && Kept(f, m, f.pos)
    requires LinesStand(e, m.pos, lines[1..], f.color) && Kept(m, e, m.pos)
    ensures LinesStand(e, f.pos, lines, f.color) && Kept(f, e, f.pos)
  {
    hide Stands, Kept, Ascii;
    KeptTrans(f, m, e, f.pos, m.pos);
    StandsLater(m, e, f.pos, Ascii(lines[0]), f.color, m.pos);
    forall i | 0 <= i < |lines| ensures Stands(e, f.pos + 80 * i, Ascii(lines[i]), f.color) {
      if i > 0 {
        assert lines[i] == lines[1..][i - 1] && f.pos + 80 * i == m.pos + 80 * (i - 1);
      }
    }
  }

  function HelpLines(): (lines: seq<string>)
    ensures |lines| == 8 && forall i :: 0 <= i < |lines| ==> |lines[i]| < 80
  {
    ["Commandes disponibles:",
     "  help     - Afficher cette aide",
     "  clear    - Effacer l'ecran",
     "  disks    - Lister les disques",
     "  pci      - Lister les peripheriques PCI",
     "  read <disk> <lba> <count> - Lire secteurs",
     "  echo <text> - Afficher du texte",
     "  reboot   - Redemarrer (triple fault)"]
  }

  lemma HelpIsLines()
    ensures HelpText() == Lines(HelpLines())
  {
    hide Line;
  }

  /** "help": eight lines on eight rows, and the prompt below. */
  lemma HelpShown(d: Document, w: Findings, prompt: seq<byte>)
    requires d.Valid() && Printable(prompt)
    ensures Printable(Ascii("help")) && |Ascii("help")| <= MAX_LINE
    ensures var e, p := AfterEnter(d, Ascii("help"), w, prompt), NextRowOf(d.pos);
            && LinesStand(e, p, HelpLines(), d.color) && Kept(d, e, p)
            && Stands(e, p + 640, prompt, d.color) && e.pos == p + 640 + |prompt|
  {
    EnterRow(d);
    HelpRuns(d, w);
    var line, f := Ascii("help"), d.Put(NEWLINE);
    hide *;
    LinesShown(f, HelpLines());
    PromptStands(d, line, w, prompt);
    LinesKept(d, f, AfterOutput(d, line, w), AfterEnter(d, line, w, prompt), HelpLines());
  }

  lemma HelpRuns(d: Document, w: Findings)
    requires d.Valid()
    ensures Printable(Ascii("help")) && |Ascii("help")| <= MAX_LINE && Ascii("help") != REBOOT
    ensures d.Put(NEWLINE).Valid()
    ensures AfterOutput(d, Ascii("help"), w) == Run(d.Put(NEWLINE), Lines(HelpLines()))
  {
    var line := Ascii("help");
    CommandMeaning(line);
    RebootOnly(line);
    EnterRow(d);
    OutputAllowed(line, w);
    HelpIsLines();
    hide CommandOf, Document.Put, Ascii, HelpText, HelpLines, Lines, Run;
  }

  lemma LinesKept(d: Document, f: Document, a: Document, e: Document, lines: seq<string>)
    requires Kept(d, f, f.pos) && Kept(f, a, f.pos) && Kept(a, e, a.pos) && a.pos == f.pos + 80 * |lines|
    requires LinesStand(a, f.pos, lines, d.color) && forall i :: 0 <= i < |lines| ==> |lines[i]| < 80
    ensures Kept(d, e, f.pos) && LinesStand(e, f.pos, lines, d.color)
  {
    hide Stands, Kept, Ascii;
    KeptTrans(f, a, e, f.pos, a.pos);
    KeptTrans(d, f, e, f.pos, f.pos);
    forall i | 0 <= i < |lines| ensures Stands(e, f.pos + 80 * i, Ascii(lines[i]), d.color) {
      StandsLater(a, e, f.pos + 80 * i, Ascii(lines[i]), d.color, a.pos);
    }
  }
}
