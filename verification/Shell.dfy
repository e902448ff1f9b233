/** The shell of kernel/kernel.c: the command buffer, its echo on the terminal, the dispatch on
    Enter, what each command writes, and the prompt. */
module Shell {
  import opened Bytes
  import opened CString
  import opened ReadCommand
  import opened VgaText
  import opened VgaTerminal
  import opened LineEditor

  const HELP: seq<byte> := [104, 101, 108, 112]
  const CLEAR: seq<byte> := [99, 108, 101, 97, 114]
  const DISKS: seq<byte> := [100, 105, 115, 107, 115]
  const PCI: seq<byte> := [112, 99, 105]
  const READ: seq<byte> := [114, 101, 97, 100, 32]
  const ECHO: seq<byte> := [101, 99, 104, 111, 32]
  const REBOOT: seq<byte> := [114, 101, 98, 111, 111, 116]
  const PROMPT: seq<byte> := [97, 101, 116, 104, 101, 114, 105, 111, 110, 62, 32]

  datatype Command =
    | Nothing | Help | ClearScreen | Disks | Pci
    | Read(args: ReadArgs) | Echo(text: seq<byte>) | Reboot | Unknown(line: seq<byte>)

  function CommandOf(line: seq<byte>): Command {
    if line == [] then Nothing
    else if line == HELP then Help
    else if line == CLEAR then ClearScreen
    else if line == DISKS then Disks
    else if line == PCI then Pci
    else if READ <= line then Read(ParseRead(line[5..]))
    else if ECHO <= line then Echo(line[5..])
    else if line == REBOOT then Reboot
    else Unknown(line)
  }

  lemma RebootOnly(line: seq<byte>)
    ensures CommandOf(line).Reboot? <==> line == REBOOT
  {
    assert REBOOT[0] == 114 && REBOOT[2] == 98 && READ[2] == 97 && ECHO[0] == 101;
    assert HELP[0] == 104 && CLEAR[0] == 99 && DISKS[0] == 100 && PCI[0] == 112;
  }

  method Is(cmd: seq<byte>, word: seq<byte>) returns (r: bool)
    requires Terminated(cmd, 0) && 0 !in word
    ensures r <==> Text(cmd, 0) == word
  {
    TextOfLiteral(word);
    var d := StrCmp(cmd, word + [0]);
    CompareZero(Text(cmd, 0), word);
    r := d == 0;
  }

  method StartsWith(cmd: seq<byte>, word: seq<byte>) returns (r: bool)
    requires Terminated(cmd, 0) && 0 !in word
    ensures r <==> word <= Text(cmd, 0)
  {
    TextOfLiteral(word);
    CutTextIs(cmd, 0, |word|);
    CutTextIs(word + [0], 0, |word|);
    var d := StrNCmp(cmd, word + [0], |word|);
    PrefixTest(Text(cmd, 0), word);
    r := d == 0;
  }

  lemma TailText(m: seq<byte>, n: nat)
    requires Terminated(m, 0) && n <= |Text(m, 0)|
    ensures Terminated(m, n) && Text(m, n) == Text(m, 0)[n..]
  {
    var t := Text(m, 0);
    assert m[n..n + |t[n..]|] == t[n..];
    TextIs(m, n, t[n..]);
  }

  method Dispatch(cmd: seq<byte>, len: nat) returns (c: Command)
    requires Terminated(cmd, 0) && len == |Text(cmd, 0)|
    ensures c == CommandOf(Text(cmd, 0))
  {
    if len == 0 { return Nothing; }
    var m := Is(cmd, HELP);
    if m { return Help; }
    m := Is(cmd, CLEAR);
    if m { return ClearScreen; }
    m := Is(cmd, DISKS);
    if m { return Disks; }
    m := Is(cmd, PCI);
    if m { return Pci; }
    m := StartsWith(cmd, READ);
    if m {
      TailText(cmd, 5);
      var args := Parse(cmd);
      return Read(args);
    }
    m := StartsWith(cmd, ECHO);
    if m {
      TailText(cmd, 5);
      return Echo(cmd[5..len]);
    }
    m := Is(cmd, REBOOT);
    if m { return Reboot; }
    return Unknown(cmd[..len]);
  }

  // What the commands write

  /** The bytes of a message (all of them plain ASCII; anything else would be '?'). */
  function Ascii(s: string): (r: seq<byte>)
    ensures |r| == |s| && Printable(r)
  {
    seq(|s|, i requires 0 <= i < |s| => if ' ' <= s[i] <= '~' then s[i] as int else 63)
  }

  /** The words of the shell, and what else a line can be. */
  lemma CommandMeaning(line: seq<byte>)
    ensures CommandOf(line).Nothing? <==> line == []
    ensures CommandOf(line).Help? <==> line == Ascii("help")
    ensures CommandOf(line).ClearScreen? <==> line == Ascii("clear")
    ensures CommandOf(line).Disks? <==> line == Ascii("disks")
    ensures CommandOf(line).Pci? <==> line == Ascii("pci")
    ensures CommandOf(line).Reboot? <==> line == Ascii("reboot")
    ensures CommandOf(line).Read? <==> Ascii("read ") <= line
    ensures CommandOf(line).Echo? <==> Ascii("echo ") <= line
    ensures CommandOf(line).Read? ==> CommandOf(line).args == ParseRead(line[5..])
    ensures CommandOf(line).Echo? ==> CommandOf(line).text == line[5..]
    ensures CommandOf(line).Unknown? ==> CommandOf(line).line == line
  {
    Words();
    RebootOnly(line);
    FirstBytes();
    hide Ascii, ParseRead;
    if READ <= line { assert line[0] == READ[0] && line[4] == READ[4]; }
    if ECHO <= line { assert line[0] == ECHO[0] && line[4] == ECHO[4]; }
  }

  lemma FirstBytes()
    ensures HELP[0] == 104 && CLEAR[0] == 99 && DISKS[0] == 100 && PCI[0] == 112 && REBOOT[0] == 114
    ensures READ[0] == 114 && READ[4] == 32 && ECHO[0] == 101 && ECHO[4] == 32
    ensures |HELP| == 4 && |CLEAR| == 5 && |DISKS| == 5 && |PCI| == 3 && |REBOOT| == 6 && REBOOT[4] == 111
    ensures |READ| == 5 && |ECHO| == 5
  {
  }

  lemma Words()
    ensures HELP == Ascii("help") && CLEAR == Ascii("clear") && DISKS == Ascii("disks") && PCI == Ascii("pci")
    ensures READ == Ascii("read ") && ECHO == Ascii("echo ") && REBOOT == Ascii("reboot")
    ensures PROMPT == Ascii("aetherion> ")
  {
  }

  /** A message and a newline. */
  function Line(s: string): (op: Op)
    ensures op.Valid() && op.Write? && op.text != [] && op.text[|op.text| - 1] == NEWLINE
  {
    Op.Write(Ascii(s) + [NEWLINE])
  }

  /** A C string: text the shell gets from elsewhere in the kernel. */
  type CText = s: seq<byte> | 0 !in s

  datatype ReadOutcome = NoSuchDisk | ReadFailed(reports: seq<CText>) | Dump(pieces: seq<CText>)

  /** What the machine contributes to the output: the lines about disks (if there are any disks)
      and PCI functions, and how a read went, with what the disk layers report of a failure. */
  datatype Findings = Findings(disks: Option<seq<CText>>, functions: seq<CText>, read: ReadOutcome)

  function Writes(texts: seq<CText>): (ops: seq<Op>)
    ensures |ops| == |texts| && forall i :: 0 <= i < |ops| ==> ops[i] == Op.Write(texts[i]) && ops[i].Valid()
  {
    seq(|texts|, i requires 0 <= i < |texts| => Op.Write(texts[i]))
  }

  /** An empty line and a title in yellow. */
  function Title(s: string): (ops: seq<Op>)
    ensures AllValid(ops) && NeverSetsCursor(ops)
  {
    [Op.SetColor(14, 0), Op.Write([NEWLINE]), Line(s), Op.SetColor(15, 0)]
  }

  function HelpText(): (ops: seq<Op>)
    ensures EndsFresh(ops)
  {
    [Line("Commandes disponibles:"),
     Line("  help     - Afficher cette aide"),
     Line("  clear    - Effacer l'ecran"),
     Line("  disks    - Lister les disques"),
     Line("  pci      - Lister les peripheriques PCI"),
     Line("  read <disk> <lba> <count> - Lire secteurs"),
     Line("  echo <text> - Afficher du texte"),
     Line("  reboot   - Redemarrer (triple fault)")]
  }

  const UNKNOWN_COMMAND := "Commande inconnue: "

  /** vga_printf formats into a buffer of 256 bytes. */
  const MAX_PRINTED: nat := 255

  function UnknownText(line: seq<byte>): seq<byte> {
    Truncate(Ascii(UNKNOWN_COMMAND) + line + [NEWLINE], MAX_PRINTED)
  }

  function Output(c: Command, w: Findings): seq<Op> {
    match c
    case Nothing => []
    case Help => HelpText()
    case ClearScreen => [Op.Clear]
    case Disks => Title("=== Disques detectes ===") +
                  (if w.disks.None? then [Line("  Aucun disque detecte")]
                   else Writes(w.disks.value) + [Op.Write([NEWLINE])])
    case Pci => Title("=== PCI Devices ===") + Writes(w.functions) + [Op.Write([NEWLINE])]
    case Read(_) => (match w.read
                     case NoSuchDisk => [Line("Disque invalide")]
                     case ReadFailed(reports) => Writes(reports) + [Line("Erreur lecture")]
                     case Dump(pieces) => Writes(pieces) + [Op.PutChar(NEWLINE)])
    case Echo(text) => [Op.Write(text), Op.PutChar(NEWLINE)]
    case Reboot => [Line("Redemarrage...")]
    case Unknown(line) => [Op.Write(UnknownText(line))]
  }

  /** The one output that can lose its newline: the message about an unknown command of 236
      characters or more is cut at 255. */
  predicate CutShort(line: seq<byte>) {
    CommandOf(line).Unknown? && |line| > 235
  }

  /** In terms of the line alone, with the shortest example. */
  lemma CutShortExact(line: seq<byte>)
    ensures CutShort(line) <==> |line| > 235 && !(READ <= line) && !(ECHO <= line)
    ensures CutShort(Repeat(120, 236))
  {
    assert READ[0] == 114 && ECHO[0] == 101;
  }

  lemma UnknownTextShape(line: seq<byte>)
    requires Printable(line) && |line| <= MAX_LINE
    ensures 0 !in UnknownText(line)
    ensures |line| <= 235 ==> UnknownText(line) == Ascii(UNKNOWN_COMMAND) + line + [NEWLINE]
    ensures |line| > 235 ==> |UnknownText(line)| == MAX_PRINTED && Printable(UnknownText(line))
  {
  }

  lemma OutputShape(c: Command, w: Findings)
    requires c.Echo? ==> 0 !in c.text
    requires c.Unknown? ==> 0 !in UnknownText(c.line)
    ensures AllValid(Output(c, w)) && NeverSetsCursor(Output(c, w))
    ensures !c.Unknown? ==> EndsFresh(Output(c, w))
  {
    hide UnknownText, Ascii, Line, Title, Writes, HelpText;
    var ops := Output(c, w);
    if c.Disks? && w.disks.Some? {
      assert ops[|ops| - 1] == Op.Write([NEWLINE]);
    } else if c.Pci? {
      assert ops[|ops| - 1] == Op.Write([NEWLINE]);
    } else if c.Read? && w.read.Dump? {
      assert ops[|ops| - 1] == Op.PutChar(NEWLINE);
    } else if c.Read? && w.read.ReadFailed? {
      assert ops[|ops| - 1] == Line("Erreur lecture");
    }
  }

  lemma OutputAllowed(line: seq<byte>, w: Findings)
    requires Printable(line) && |line| <= MAX_LINE
    ensures AllValid(Output(CommandOf(line), w)) && NeverSetsCursor(Output(CommandOf(line), w))
    ensures !CutShort(line) ==> EndsFresh(Output(CommandOf(line), w))
  {
    UnknownTextShape(line);
    if CommandOf(line).Echo? {
      assert 0 !in line[5..];
    }
    OutputShape(CommandOf(line), w);
    hide UnknownText, Ascii, ParseRead;
  }

  /** The document when the command entered has written its output. */
  ghost function AfterOutput(d: Document, line: seq<byte>, w: Findings): (e: Document)
    requires d.Valid() && Printable(line) && |line| <= MAX_LINE
    ensures e.Valid()
  {
    PutValid(d, NEWLINE);
    OutputAllowed(line, w);
    Run(d.Put(NEWLINE), Output(CommandOf(line), w))
  }

  /** Where the output of an entered line leaves the cursor: everything ahead is blank, and the row
      is a fresh one except after a message that was cut, when the column is 255 % 80. */
  lemma OutputExact(d: Document, line: seq<byte>, w: Findings)
    requires d.Valid() && BlankBelow(d) && Printable(line) && |line| <= MAX_LINE
    ensures var e := AfterOutput(d, line, w);
            && BlankBelow(e) && BlankFrom(e, e.pos)
            && e.pos % WIDTH == (if CutShort(line) then 15 else 0)
            && (FreshRow(e) <==> !CutShort(line))
  {
    hide Run, BlankBelow, UnknownText;
    NewlineMakesFresh(d);
    PutBlankBelow(d, NEWLINE);
    OutputAllowed(line, w);
    var f := d.Put(NEWLINE);
    var ops := Output(CommandOf(line), w);
    RunBlankBelow(f, ops);
    if CutShort(line) {
      CutMessage(f, line);
    } else {
      OutputEndsOnFreshRow(f, ops);
    }
  }

  lemma CutMessage(f: Document, line: seq<byte>)
    requires f.Valid() && FreshRow(f) && Printable(line) && 235 < |line| <= MAX_LINE
    ensures AllValid([Op.Write(UnknownText(line))])
    ensures var e := Run(f, [Op.Write(UnknownText(line))]);
            e.pos % WIDTH == 15 && BlankFrom(e, e.pos)
  {
    hide UnknownText, PutAll;
    UnknownTextShape(line);
    var text := UnknownText(line);
    RunOne(f, Op.Write(text));
    PlainTextConsecutive(f, text);
    BlankGlyph(f.color);
  }

  /** The document after Enter: newline, output, and a prompt unless the machine was stopped. */
  ghost function AfterEnter(d: Document, line: seq<byte>, w: Findings, prompt: seq<byte>): (e: Document)
    requires d.Valid() && Printable(line) && |line| <= MAX_LINE
    ensures e.Valid()
  {
    if line == REBOOT then AfterOutput(d, line, w) else PutAll(AfterOutput(d, line, w), prompt)
  }

  /** The column of the prompt that follows these lines. */
  function PromptColumn(lines: seq<seq<byte>>): nat {
    if lines != [] && CutShort(lines[|lines| - 1]) then 15 else 0
  }

  /** Every line was dispatched to the command it names, and the machine is stopped exactly by
      the last of them being "reboot". */
  ghost predicate Dispatched(lines: seq<seq<byte>>, commands: seq<Command>, halted: bool) {
    && |commands| == |lines|
    && (forall i :: 0 <= i < |commands| ==> commands[i] == CommandOf(lines[i]))
    && (forall i :: 0 <= i < |lines| && lines[i] == REBOOT ==> halted && i == |lines| - 1)
    && (halted ==> lines != [] && lines[|lines| - 1] == REBOOT)
  }

  lemma DispatchOne(lines: seq<seq<byte>>, commands: seq<Command>, line: seq<byte>)
    requires Dispatched(lines, commands, false)
    ensures Dispatched(lines + [line], commands + [CommandOf(line)], line == REBOOT)
  {
    hide CommandOf;
  }

  /** What the screen shows for the keys since a prompt that ends at `end`. */
  function ShownSince(end: nat, since: seq<byte>): seq<byte> { EchoTexts(Echoed([], []), end, since).shown }

  /** The screen shows what the keys make it show after the prompt: `end` is where the prompt ends,
      `above` the document up to there, `since` the keys handled since then. */
  ghost predicate Displayed(t: Typed, d: Document, prompt: seq<byte>, end: nat, above: seq<Cell>, since: seq<byte>) {
    && BlankBelow(d)
    && end == |above| && Prompted(above, prompt)
    && (end - |prompt|) % WIDTH == PromptColumn(t.lines)
    && t.current == FoldLine([], since)
    && Shows(d, end, above, ShownSince(end, since))
  }

  lemma PromptDisplayed(lines: seq<seq<byte>>, f: Document, prompt: seq<byte>)
    requires f.Valid() && BlankBelow(f) && BlankFrom(f, f.pos) && Printable(prompt)
    requires f.pos % WIDTH == PromptColumn(lines)
    ensures var e := PutAll(f, prompt);
            && e.pos >= |prompt|
            && Displayed(Typed(lines, []), e, prompt, e.pos, e.cells[..e.pos], [])
  {
    PromptStartsDisplay(f, prompt);
    PutAllBlankBelow(f, prompt);
    var e := PutAll(f, prompt);
    assert e.pos - |prompt| == f.pos;
    assert FoldLine([], []) == [] && ShownSince(e.pos, []) == [];
    hide PutAll, BlankFrom, BlankBelow, Prompted, Shows, PromptColumn, EchoTexts, FoldLine;
  }

  lemma EnterDisplayed(lines: seq<seq<byte>>, d: Document, line: seq<byte>, w: Findings, prompt: seq<byte>)
    requires d.Valid() && BlankBelow(d) && Printable(line) && |line| <= MAX_LINE && Printable(prompt)
    ensures var e := AfterEnter(d, line, w, prompt);
            line != REBOOT ==> Displayed(Typed(lines + [line], []), e, prompt, e.pos, e.cells[..e.pos], [])
  {
    OutputExact(d, line, w);
    assert PromptColumn(lines + [line]) == if CutShort(line) then 15 else 0;
    hide AfterOutput, CutShort, PromptColumn;
    PromptDisplayed(lines + [line], AfterOutput(d, line, w), prompt);
  }

  lemma KeyDisplayed(t: Typed, d: Document, prompt: seq<byte>, end: nat, above: seq<Cell>, since: seq<byte>, c: byte)
    requires d.Valid() && Displayed(t, d, prompt, end, above, since)
    ensures var s := EchoKey(Screen(t.current, d), c);
            Displayed(Typed(t.lines, s.line), s.doc, prompt, end, above, since + [c])
  {
    var s, e := Screen(t.current, d), EchoTexts(Echoed([], []), end, since);
    EchoTextsLast(Echoed([], []), end, since, c);
    FoldLineAppend([], since, [c]);
    FoldLineOne(t.current, c);
    ShownAhead(Echoed([], []), end, since);
    hide EchoTexts, EchoText, FoldLine, Prompted, PromptColumn, BlankBelow, StuckCount, Shows;
    ShownStep(s, end, above, e.shown, c);
    EditKeepsBlankBelow(s, c);
  }

  class Console {
    const cmdBuf: array<byte>
    var cmdLen: nat
    var halted: bool                   // interrupts off and the processor stopped
    const term: Terminal
    const prompt: seq<byte>

    ghost var typed: Typed             // the fold over every key handled
    ghost var commands: seq<Command>   // what each Enter dispatched
    ghost var promptEnd: nat           // where the current prompt ends
    ghost var above: seq<Cell>         // the document up to there
    ghost var since: seq<byte>         // the keys handled since then

    ghost predicate Separate()
      reads this
    {
      cmdBuf.Length == 256 && (cmdBuf as object) != (term.buffer as object) && Printable(prompt)
    }

    /** The command buffer holds this line. */
    ghost predicate Holds(line: seq<byte>)
      reads this, cmdBuf
    {
      cmdBuf.Length == 256 && cmdLen <= MAX_LINE && line == cmdBuf[..cmdLen] && Printable(line)
    }

    ghost predicate Valid()
      reads this, cmdBuf, term, term.buffer
    {
      && Separate() && term.Valid() && Dispatched(typed.lines, commands, halted)
      && (if halted then Holds(REBOOT) && typed.current == []
          else Holds(typed.current) && Displayed(typed, term.doc, prompt, promptEnd, above, since))
    }

    constructor (t: Terminal)
      requires t.Valid() && BlankBelow(t.doc) && FreshRow(t.doc)
      modifies t, t.buffer
      ensures Valid() && term == t && fresh(cmdBuf) && prompt == PROMPT
      ensures typed == NOTHING_TYPED && since == [] && !halted
      ensures t.doc == PutAll(old(t.doc), PROMPT) && promptEnd == t.doc.pos
    {
      cmdBuf := new byte[256];
      cmdLen, halted, term, prompt := 0, false, t, PROMPT;
      typed, commands, since := NOTHING_TYPED, [], [];
      new;
      Start();
    }

    /** The first prompt. */
    method Start()
      requires Separate() && Holds([]) && term.Valid() && BlankBelow(term.doc) && FreshRow(term.doc)
      requires typed == NOTHING_TYPED && commands == [] && since == [] && !halted
      modifies this`promptEnd, this`above, term, term.buffer
      ensures Valid()
      ensures term.doc == PutAll(old(term.doc), prompt) && promptEnd == term.doc.pos
    {
      PromptDisplayed([], term.doc, prompt);
      Prompt();
      promptEnd, above := term.doc.pos, term.doc.cells[..term.doc.pos];
    }

    method Prompt()
      requires term.Valid() && Printable(prompt)
      modifies term, term.buffer
      ensures term.Valid() && term.doc == PutAll(old(term.doc), prompt)
    {
      TextOfLiteral(prompt);
      term.WriteString(prompt + [0]);
    }

    /** Terminate the buffer and find the command in it. */
    method Submit(ghost line: seq<byte>) returns (c: Command)
      requires Separate() && term.Valid() && Holds(line)
      modifies cmdBuf
      ensures c == CommandOf(line) && term.Valid() && Holds(line)
    {
      cmdBuf[cmdLen] := 0;
      assert cmdBuf[..][0..0 + cmdLen] == line;
      TextIs(cmdBuf[..], 0, line);
      c := Dispatch(cmdBuf[..], cmdLen);
    }

    /** The Enter branch: newline, dispatch, the command's output, then an empty line and the
        prompt, which "reboot" does not live to see. */
    method RunCommand(ghost line: seq<byte>, w: Findings) returns (c: Command)
      requires Separate() && term.Valid() && Holds(line) && !halted
      modifies this`cmdLen, this`halted, cmdBuf, term, term.buffer
      ensures term.Valid() && c == CommandOf(line) && halted == (line == REBOOT)
      ensures Holds(if halted then REBOOT else [])
      ensures term.doc == AfterEnter(old(term.doc), line, w, prompt)
    {
      RebootOnly(line);
      c := Execute(line, w);
      hide CommandOf, AfterOutput, Terminal.Valid;
      if c.Reboot? {
        halted := true;
        return;
      }
      cmdLen := 0;
      Prompt();
    }

    method Execute(ghost line: seq<byte>, w: Findings) returns (c: Command)
      requires Separate() && term.Valid() && Holds(line)
      modifies cmdBuf, term, term.buffer
      ensures term.Valid() && Holds(line) && c == CommandOf(line)
      ensures term.doc == AfterOutput(old(term.doc), line, w)
    {
      OutputAllowed(line, w);
      term.PutChar(NEWLINE);
      c := Submit(line);
      hide CommandOf, Output, Terminal.Valid, Document.Put;
      term.PerformAll(Output(c, w));
    }

    /** The other branches. */
    method Edit(c: byte, ghost line: seq<byte>)
      requires Separate() && term.Valid() && Holds(line) && !IsEnter(c)
      modifies this`cmdLen, cmdBuf, term, term.buffer
      ensures term.Valid() && Holds(EditLine(line, c))
      ensures Screen(EditLine(line, c), term.doc) == EchoKey(Screen(line, old(term.doc)), c)
    {
      hide Document.Put, BlankBelow;
      if c == BACKSPACE {
        if cmdLen > 0 {
          cmdLen := cmdLen - 1;
          term.PutChar(BACKSPACE);
        }
      } else if IsPrintable(c) && cmdLen < cmdBuf.Length - 1 {
        cmdBuf[cmdLen] := c;
        cmdLen := cmdLen + 1;
        term.PutChar(c);
      }
    }

    /** Enter submits the line; the display starts again behind the new prompt, in column 0 or,
        after a message that was cut, in column 15. */
    method Enter(w: Findings)
      requires Valid() && !halted
      modifies this, cmdBuf, term, term.buffer
      ensures Valid() && halted == (old(typed).current == REBOOT)
      ensures typed == Typed(old(typed).lines + [old(typed).current], [])
      ensures commands == old(commands) + [CommandOf(old(typed).current)]
      ensures term.doc == AfterEnter(old(term.doc), old(typed).current, w, prompt)
      ensures promptEnd == term.doc.pos && since == []
    {
      ghost var line := typed.current;
      EnterDisplayed(typed.lines, term.doc, line, w, prompt);
      hide AfterEnter, Displayed, Dispatched, CommandOf, Terminal.Valid;
      var cmd := RunCommand(line, w);
      Restart(line);
    }

    /** The ghost state once a line has run: a new display, if the machine still runs. */
    ghost method Restart(line: seq<byte>)
      requires Separate() && term.Valid() && Dispatched(typed.lines, commands, false)
      requires halted == (line == REBOOT) && Holds(if halted then REBOOT else [])
      requires var d := term.doc;
               !halted ==> Displayed(Typed(typed.lines + [line], []), d, prompt, d.pos, d.cells[..d.pos], [])
      modifies this`typed, this`commands, this`promptEnd, this`above, this`since
      ensures Valid()
      ensures typed == Typed(old(typed).lines + [line], []) && commands == old(commands) + [CommandOf(line)]
      ensures promptEnd == term.doc.pos && since == []
    {
      DispatchOne(typed.lines, commands, line);
      hide Displayed, Dispatched, CommandOf, Terminal.Valid;
      typed, commands := Typed(typed.lines + [line], []), commands + [CommandOf(line)];
      promptEnd, above, since := term.doc.pos, term.doc.cells[..term.doc.pos], [];
    }

    method OtherKey(c: byte)
      requires Valid() && !halted && !IsEnter(c)
      modifies this`cmdLen, this`typed, this`since, cmdBuf, term, term.buffer
      ensures Valid()
      ensures typed == Typed(old(typed).lines, EditLine(old(typed).current, c))
      ensures Screen(typed.current, term.doc) == EchoKey(Screen(old(typed).current, old(term.doc)), c)
      ensures since == old(since) + [c]
    {
      KeyDisplayed(typed, term.doc, prompt, promptEnd, above, since, c);
      hide Displayed, Dispatched, CommandOf, EditLine, Terminal.Valid;
      Edit(c, typed.current);
      Note(c);
    }

    /** The ghost state once a key has edited the line. */
    ghost method Note(c: byte)
      requires Separate() && term.Valid() && Dispatched(typed.lines, commands, halted) && !halted
      requires var line := EditLine(typed.current, c);
               Holds(line) && Displayed(Typed(typed.lines, line), term.doc, prompt, promptEnd, above, since + [c])
      modifies this`typed, this`since
      ensures Valid()
      ensures typed == Typed(old(typed).lines, EditLine(old(typed).current, c)) && since == old(since) + [c]
    {
      hide Displayed, Dispatched, CommandOf, EditLine, Terminal.Valid;
      typed, since := Typed(typed.lines, EditLine(typed.current, c)), since + [c];
    }

    /** One round of the key loop after keyboard_getchar has returned c. */
    method HandleKey(c: byte, w: Findings)
      requires Valid() && !halted
      modifies this, cmdBuf, term, term.buffer
      ensures Valid()
      ensures typed == TypeKey(old(typed), c)
      ensures halted == (IsEnter(c) && old(typed).current == REBOOT)
    {
      if IsEnter(c) {
        Enter(w);
      } else {
        OtherKey(c);
      }
    }
  }

  /** The cursor's row of the video memory is, from `column` on, the prompt, then exactly the line,
      then blanks, and the cursor is just after the line. */
  ghost predicate RowShows(screen: seq<Cell>, row: nat, col: nat, color: byte, column: nat, prompt: seq<byte>,
                           line: seq<byte>)
  {
    var start := row * WIDTH + column;
    && |screen| == CELLS && row < HEIGHT && col == column + |prompt| + |line| < WIDTH
    && (forall i :: 0 <= i < |prompt| ==> Glyph(screen[start + i]) == prompt[i])
    && (forall i :: 0 <= i < |line| ==> screen[start + |prompt| + i] == Entry(line[i], color))
    && (forall k :: row * WIDTH + col <= k < (row + 1) * WIDTH ==> Glyph(screen[k]) == BLANK_CHAR)
  }

  lemma RowOfDocument(d: Document, row: nat, col: nat, column: nat, prompt: seq<byte>, line: seq<byte>,
                      end: nat, above: seq<Cell>)
    requires d.Valid() && row < HEIGHT && col < WIDTH && d.pos == |d.cells| - CELLS + row * WIDTH + col
    requires end == |above| && Prompted(above, prompt) && (end - |prompt|) % WIDTH == column
    requires Shows(d, end, above, line) && column + |prompt| + |line| < WIDTH
    ensures RowShows(d.Window(), row, col, d.color, column, prompt, line)
  {
    var top, first := |d.cells| - CELLS, end - |prompt|;
    PutAtRowColumn(d, row, col);
    StartOfRow(d.pos, first, column);
    assert top + row * WIDTH == first - column;
    forall i | 0 <= i < |prompt| ensures Glyph(d.Window()[row * WIDTH + column + i]) == prompt[i] {
      assert d.Window()[row * WIDTH + column + i] == d.cells[first + i] == d.cells[..end][first + i];
    }
  }

  /** While column, prompt and line together stay below 80 and no backspace got stuck, the row of
      the cursor shows them. */
  lemma PromptRow(con: Console)
    requires con.Valid() && !con.halted && !EverStuck([], con.promptEnd, con.since)
    requires PromptColumn(con.typed.lines) + |con.prompt| + con.cmdLen < WIDTH
    ensures RowShows(con.term.buffer[..], con.term.row, con.term.col, con.term.color,
                     PromptColumn(con.typed.lines), con.prompt, con.cmdBuf[..con.cmdLen])
  {
    hide RowShows, Prompted, Shows, PromptColumn, EverStuck, BlankBelow, Dispatched, FoldLine, EchoTexts, StuckCount;
    ShownIsLine([], con.promptEnd, con.since);
    RowOfDocument(con.term.doc, con.term.row, con.term.col, PromptColumn(con.typed.lines), con.prompt,
                  con.typed.current, con.promptEnd, con.above);
  }

  /** Whatever the keys, and stuck backspaces or not: every cell from the prompt's end on that is in
      the window shows its character of the text, and the cursor is just after it. */
  lemma ScreenShown(con: Console)
    requires con.Valid() && !con.halted
    ensures var top, shown := |con.term.doc.cells| - CELLS, ShownSince(con.promptEnd, con.since);
            && con.term.row * WIDTH + con.term.col == con.promptEnd + |shown| - top
            && |shown| - con.cmdLen == StuckCount(Echoed([], []), con.promptEnd, con.since)
            && (forall i :: 0 <= i < |shown| && con.promptEnd + i >= top ==>
                  con.term.buffer[..][con.promptEnd + i - top] == Entry(shown[i], con.term.color))
            && (forall k :: con.term.row * WIDTH + con.term.col <= k < CELLS ==>
                  Glyph(con.term.buffer[..][k]) == BLANK_CHAR)
  {
    hide Prompted, PromptColumn, BlankBelow, Dispatched, FoldLine, EchoTexts, StuckCount;
    ShownAhead(Echoed([], []), con.promptEnd, con.since);
  }

  /** In terms of the keys alone: it does whenever no line since the prompt reached the row's end. */
  lemma ShortLinesShown(con: Console)
    requires con.Valid() && !con.halted
    requires forall n :: 0 <= n <= |con.since| ==>
               PromptColumn(con.typed.lines) + |con.prompt| + |FoldLine([], con.since[..n])| < WIDTH
    ensures RowShows(con.term.buffer[..], con.term.row, con.term.col, con.term.color,
                     PromptColumn(con.typed.lines), con.prompt, con.cmdBuf[..con.cmdLen])
  {
    var column := PromptColumn(con.typed.lines);
    assert con.since[..0] == [] && con.since[..|con.since|] == con.since;
    hide RowShows, Prompted, Shows, PromptColumn, EverStuck, BlankBelow, Dispatched, EchoTexts;
    StartOfRow(con.promptEnd, con.promptEnd - |con.prompt|, column);
    ShortNeverStuck([], con.promptEnd, con.since);
    PromptRow(con);
  }

  lemma StartOfRow(p: nat, s: nat, column: nat)
    requires s % WIDTH == column && s <= p < s - column + WIDTH
    ensures RowStart(p) == s - column && p % WIDTH == p - (s - column)
  {
  }

  lemma EditKeepsBlankBelow(s: Screen, c: byte)
    requires s.doc.Valid() && BlankBelow(s.doc)
    ensures BlankBelow(EchoKey(s, c).doc)
  {
    PutBlankBelow(s.doc, c);
  }
}
