/** From the keyboard port to the command interpreter: the ring and the console driven by an
    arbitrary interleaving of interrupts and shell steps. */
module EndToEnd {
  import opened Bytes
  import opened VgaText
  import opened VgaTerminal
  import opened Scancode
  import opened Keyboard
  import opened LineEditor
  import opened Shell
  import opened ShellDisplay

  /** Either the keyboard interrupts with a byte, or the shell makes its next access to shared
      memory; when that completes a key the shell handles it, a command finding what `w` says. */
  datatype Event = Scan(code: byte) | Advance(w: Findings)

  function Scans(schedule: seq<Event>): seq<byte>
    decreases |schedule|
  {
    if schedule == [] then []
    else
      var n := |schedule| - 1;
      Scans(schedule[..n]) + if schedule[n].Scan? then [schedule[n].code] else []
  }

  lemma ScansSplit(schedule: seq<Event>, n: nat)
    requires n < |schedule|
    ensures Scans(schedule[..n + 1]) ==
            Scans(schedule[..n]) + if schedule[n].Scan? then [schedule[n].code] else []
  {
    assert schedule[..n + 1][..n] == schedule[..n];
  }

  // The reboot command

  /** Lines up to the first "reboot". */
  function UntilReboot(lines: seq<seq<byte>>): (r: seq<seq<byte>>)
    ensures r <= lines
  {
    if lines == [] then []
    else if lines[0] == REBOOT then lines[..1]
    else
      var rest := UntilReboot(lines[1..]);
      assert lines == [lines[0]] + lines[1..];
      [lines[0]] + rest
  }

  ghost predicate NoEarlyReboot(lines: seq<seq<byte>>) {
    forall i :: 0 <= i < |lines| - 1 ==> lines[i] != REBOOT
  }

  /** A beginning of the lines without a "reboot" before its end is a beginning of that, and all
      of it as soon as it ends with "reboot". */
  lemma {:induction false} RunsUntilReboot(some: seq<seq<byte>>, all: seq<seq<byte>>)
    requires some <= all && NoEarlyReboot(some)
    ensures some <= UntilReboot(all)
    ensures some != [] && some[|some| - 1] == REBOOT ==> some == UntilReboot(all)
    decreases |some|
  {
    if some != [] {
      assert all[0] == some[0];
      if |some| == 1 {
        assert some == all[..1];
      } else {
        assert some[0] != REBOOT && some[1..] <= all[1..];
        assert some == [some[0]] + some[1..];
        RunsUntilReboot(some[1..], all[1..]);
      }
    }
  }

  /** Nothing is lost exactly when no "reboot" comes before the last line. */
  lemma {:induction false} UntilRebootExact(lines: seq<seq<byte>>)
    ensures UntilReboot(lines) == lines <==> NoEarlyReboot(lines)
    ensures NoEarlyReboot(UntilReboot(lines))
    decreases |lines|
  {
    if lines != [] {
      var rest := lines[1..];
      UntilRebootExact(rest);
      assert lines == [lines[0]] + rest;
      assert forall i :: 1 <= i < |lines| ==> lines[i] == rest[i - 1];
      if lines[0] != REBOOT {
        assert UntilReboot(lines)[1..] == UntilReboot(rest);
        assert forall i :: 1 <= i < |UntilReboot(lines)| ==> UntilReboot(lines)[i] == UntilReboot(rest)[i - 1];
        assert NoEarlyReboot(lines) <==> NoEarlyReboot(rest) by {
          assert forall i :: 0 <= i < |rest| - 1 ==> rest[i] == lines[i + 1];
        }
      } else {
        assert UntilReboot(lines) == [lines[0]];
      }
    }
  }

  lemma {:induction false} CharactersPrefix(some: seq<byte>, all: seq<byte>)
    requires some <= all
    ensures Characters(NO_MODS, some) <= Characters(NO_MODS, all)
  {
    assert all == some + all[|some|..];
    DecodeAppend(NO_MODS, some, all[|some|..]);
  }

  class Machine {
    const keys: Ring
    const console: Console

    ghost predicate Valid()
      reads this, keys, keys.buffer, console, console.cmdBuf, console.term, console.term.buffer
    {
      && keys.Valid() && console.Valid()
      && keys.buffer != console.cmdBuf
      && (keys.buffer as object) != (console.term.buffer as object)
      && console.typed == TypeAll(NOTHING_TYPED, keys.delivered)
    }

    constructor (k: Ring, c: Console)
      requires k.Valid() && c.Valid() && k.delivered == [] && c.typed == NOTHING_TYPED
      requires k.buffer != c.cmdBuf && (k.buffer as object) != (c.term.buffer as object)
      ensures Valid() && keys == k && console == c
    {
      keys, console := k, c;
    }

    /** The shell's next access to shared memory; nothing once the machine is stopped. */
    method Advance(w: Findings)
      requires Valid()
      modifies keys, console, console.cmdBuf, console.term, console.term.buffer
      ensures Valid()
      ensures keys.codes == old(keys.codes) && keys.accepted == old(keys.accepted)
      ensures keys.dropped == old(keys.dropped)
      ensures old(console.halted) ==> console.halted && keys.delivered == old(keys.delivered)
      ensures old(!console.halted && |keys.Pending()| > 0) ==> keys.Distance() < old(keys.Distance())
    {
      if console.halted { return; }
      hide Tally, Displayed, Dispatched, Terminal.Valid, TypeKey, TypeAll, Slice, Count;
      var c := keys.Step();
      if c.Some? {
        Handle(c.value, w);
      } else {
        assert keys.delivered == old(keys.delivered);
      }
    }

    /** The shell handles the key just delivered. */
    method Handle(c: byte, w: Findings)
      requires keys.Valid() && console.Valid() && !console.halted
      requires keys.buffer != console.cmdBuf && (keys.buffer as object) != (console.term.buffer as object)
      requires keys.delivered != [] && keys.delivered[|keys.delivered| - 1] == c
      requires console.typed == TypeAll(NOTHING_TYPED, keys.delivered[..|keys.delivered| - 1])
      modifies console, console.cmdBuf, console.term, console.term.buffer
      ensures Valid()
    {
      hide Tally, Displayed, Dispatched, Terminal.Valid, TypeKey, TypeAll, Slice, Count;
      ghost var before := keys.delivered[..|keys.delivered| - 1];
      TypeAllSnoc(NOTHING_TYPED, before, c);
      assert keys.delivered == before + [c];
      console.HandleKey(c, w);
    }

    /** The keyboard's interrupt; none is taken once the machine is stopped. */
    method Interrupt(code: byte)
      requires Valid()
      modifies keys, keys.buffer
      ensures Valid()
      ensures keys.codes == old(keys.codes) + if console.halted then [] else [code]
      ensures keys.delivered == old(keys.delivered)
    {
      if console.halted { return; }
      keys.Interrupt(code);
    }

    /** Under every interleaving: what was delivered and what is pending is what was accepted, which
        is part of what the scancodes spell, in order; the lines submitted are those of the delivered
        characters; the machine stops exactly at "reboot"; and unless the ring overflowed the lines
        are a beginning, and once stopped all, of the lines up to the first "reboot" that the
        scancodes spell. */
    method Run(schedule: seq<Event>)
      requires Valid() && keys.codes == []
      modifies keys, keys.buffer, console, console.cmdBuf, console.term, console.term.buffer
      ensures Valid()
      ensures keys.codes <= Scans(schedule) && (!console.halted ==> keys.codes == Scans(schedule))
      ensures keys.delivered + keys.Pending() == keys.accepted
      ensures Within(keys.accepted, Keystrokes(Scans(schedule)))
      ensures console.typed == TypeAll(NOTHING_TYPED, keys.delivered)
      ensures console.halted <==> REBOOT in console.typed.lines
      ensures keys.dropped == 0 ==>
                ghost var lines := UntilReboot(TypeAll(NOTHING_TYPED, Keystrokes(Scans(schedule))).lines);
                && console.typed.lines <= lines
                && (console.halted ==> console.typed.lines == lines)
    {
      assert schedule[..0] == [];
      for i := 0 to |schedule|
        invariant Valid()
        invariant keys.codes <= Scans(schedule[..i]) && (!console.halted ==> keys.codes == Scans(schedule[..i]))
      {
        ScansSplit(schedule, i);
        match schedule[i]
        case Scan(code) => Interrupt(code);
        case Advance(w) => Advance(w);
      }
      assert schedule[..|schedule|] == schedule;
      StopsAtReboot();
      CharactersAreKeystrokes(Scans(schedule));
      AcceptedSpelled(Scans(schedule));
      if keys.dropped == 0 { LinesSpelled(Scans(schedule)); }
    }

    lemma AcceptedSpelled(scans: seq<byte>)
      requires Valid() && keys.codes <= scans
      ensures Within(keys.accepted, Characters(NO_MODS, scans))
    {
      hide CommandOf, Displayed, Dispatched, Within, TypeAll, Characters, Flags;
      CharactersPrefix(keys.codes, scans);
      var some, all := Characters(NO_MODS, keys.codes), Characters(NO_MODS, scans);
      WithinMore(keys.accepted, some, all[|some|..]);
      assert all == some + all[|some|..];
    }

    lemma StopsAtReboot()
      requires Valid()
      ensures console.halted <==> REBOOT in console.typed.lines
      ensures NoEarlyReboot(console.typed.lines)
    {
      hide CommandOf, Displayed;
      var lines := console.typed.lines;
      if console.halted { assert lines[|lines| - 1] in lines; }
    }

    lemma LinesSpelled(scans: seq<byte>)
      requires Valid() && keys.dropped == 0 && keys.codes <= scans
      ensures var lines := UntilReboot(TypeAll(NOTHING_TYPED, Characters(NO_MODS, scans)).lines);
              && console.typed.lines <= lines
              && (console.halted ==> console.typed.lines == lines)
    {
      StopsAtReboot();
      hide CommandOf, Displayed, UntilReboot, TypeAll, Characters, Within;
      WithinAll(keys.accepted, Characters(NO_MODS, keys.codes));
      CharactersPrefix(keys.codes, scans);
      assert keys.delivered <= keys.accepted <= Characters(NO_MODS, scans);
      PrefixSubmits(keys.delivered, Characters(NO_MODS, scans));
      RunsUntilReboot(console.typed.lines, TypeAll(NOTHING_TYPED, Characters(NO_MODS, scans)).lines);
    }

    /** Left alone, the shell submits the lines of everything accepted up to the first "reboot",
        and catches up with everything if there is none. */
    method Drain(w: Findings)
      requires Valid()
      modifies keys, console, console.cmdBuf, console.term, console.term.buffer
      ensures Valid() && (!console.halted ==> keys.Pending() == [])
      ensures keys.codes == old(keys.codes) && keys.dropped == old(keys.dropped)
      ensures ghost var all := TypeAll(NOTHING_TYPED, old(keys.accepted));
              && console.typed.lines == UntilReboot(all.lines)
              && (console.typed.lines == all.lines <==> NoEarlyReboot(all.lines))
              && (console.typed == all <==> NoEarlyReboot(all.lines) && (REBOOT in all.lines ==> all.current == []))
              && (console.halted <==> REBOOT in all.lines)
    {
      FullExactly(keys.head, keys.tail);
      while !console.halted && keys.head != keys.tail
        invariant Valid() && (keys.head == keys.tail <==> |keys.Pending()| == 0)
        invariant keys.codes == old(keys.codes) && keys.accepted == old(keys.accepted)
        invariant keys.dropped == old(keys.dropped)
        decreases if console.halted then 0 else 1, keys.Distance()
      {
        Advance(w);
        FullExactly(keys.head, keys.tail);
      }
      Drained();
    }

    /** What a machine that is stopped or has nothing pending has reached. */
    lemma Drained()
      requires Valid() && (console.halted || keys.Pending() == [])
      ensures var all := TypeAll(NOTHING_TYPED, keys.accepted);
              && console.typed.lines == UntilReboot(all.lines)
              && (console.typed.lines == all.lines <==> NoEarlyReboot(all.lines))
              && (console.typed == all <==> NoEarlyReboot(all.lines) && (REBOOT in all.lines ==> all.current == []))
              && (console.halted <==> REBOOT in all.lines)
    {
      StopsAtReboot();
      hide CommandOf, Displayed, UntilReboot, TypeAll;
      var all := TypeAll(NOTHING_TYPED, keys.accepted);
      PrefixSubmits(keys.delivered, keys.accepted);
      RunsUntilReboot(console.typed.lines, all.lines);
      UntilRebootExact(all.lines);
      if !console.halted { assert keys.delivered == keys.accepted; }
    }
  }

  /** From power on: whatever the video memory holds and whatever the initialisation prints before
      the last message, the machine comes up at its first prompt. */
  method PowerOn(memory: array<Cell>, boot: seq<Op>) returns (m: Machine)
    requires memory.Length == CELLS && AllValid(boot) && NeverSetsCursor(boot)
    modifies memory
    ensures m.Valid() && fresh(m) && m.console.term.buffer == memory
    ensures m.keys.codes == [] && m.console.typed == NOTHING_TYPED && !m.console.halted
    ensures CameUp(Run(Fresh(7), boot), m.console.term.doc)
  {
    var t := Boot(memory, boot);
    ReadyShown(Run(Fresh(7), boot));
    var c := new Console(t);
    var k := new Ring();
    m := new Machine(k, c);
  }

  /** The last message stands in light green where the initialisation left the cursor, and the prompt
      in white at the start of the row after it. */
  ghost predicate CameUp(b: Document, e: Document) {
    var q := NextRowOf(b.pos + 46);
    && Stands(e, b.pos, ReadyMessage(), 10)
    && Stands(e, q, Ascii("aetherion> "), 15) && e.pos == q + 11 && e.color == 15
  }

  ghost function Ready(b: Document): (e: Document)
    requires b.Valid()
    ensures e.Valid()
  {
    Apply(Run(b, ReadyText()), Op.SetColor(15, 0))
  }

  /** The last message of the start-up. */
  function ReadyMessage(): (r: seq<byte>)
    ensures |r| == 46 && Printable(r)
  {
    Ascii("Systeme pret. Tapez 'help' pour les commandes.")
  }

  lemma ReadyIsWritten(b: Document)
    requires b.Valid()
    ensures Ready(b) == PutAll(b.(color := 10), ReadyMessage() + [NEWLINE]).(color := 15)
  {
    var text := ReadyMessage();
    assert Color(10, 0) == 10 && Color(15, 0) == 15;
    assert ReadyText() == [Op.SetColor(10, 0)] + [Op.Write(text + [NEWLINE])];
    hide Ascii, Line, ReadyText, ReadyMessage, Run, PutAll;
    RunFirst(b, Op.SetColor(10, 0), [Op.Write(text + [NEWLINE])]);
    OneWrite(b.(color := 10), text + [NEWLINE]);
  }

  lemma ReadyShown(b: Document)
    requires b.Valid()
    ensures CameUp(b, PutAll(Ready(b), PROMPT))
  {
    hide Ascii, PutAll, Stands, Kept, Run, CameUp;
    var text, e := ReadyMessage(), Ready(b);
    var b1 := b.(color := 10);
    ReadyIsWritten(b);
    Words();
    PromptPrintable();
    LineStands(b1, text);
    TextStands(e, PROMPT);
    hide *;
    CameUpBy(b, PutAll(b1, text + [NEWLINE]), e, PutAll(e, PROMPT));
  }

  lemma PromptPrintable()
    ensures |PROMPT| == 11 && Printable(PROMPT)
  {
  }

  lemma CameUpBy(b: Document, a: Document, e: Document, f: Document)
    requires Stands(a, b.pos, ReadyMessage(), 10) && a.pos == NextRowOf(b.pos + 46)
    requires e == a.(color := 15) && Kept(e, f, e.pos)
    requires Stands(f, e.pos, PROMPT, 15) && PROMPT == Ascii("aetherion> ") && f.pos == e.pos + 11 && f.color == 15
    ensures CameUp(b, f)
  {
    hide Ascii, ReadyMessage;
    assert a.pos > b.pos + 46;
    StandsLater(e, f, b.pos, ReadyMessage(), 10, a.pos);
  }

  function ReadyText(): (ops: seq<Op>)
    ensures EndsFresh(ops) && ops != []
  {
    [Op.SetColor(10, 0), Line("Systeme pret. Tapez 'help' pour les commandes.")]
  }

  /** vga_init, whatever follows, and the last message. */
  method Boot(memory: array<Cell>, boot: seq<Op>) returns (t: Terminal)
    requires memory.Length == CELLS && AllValid(boot) && NeverSetsCursor(boot)
    modifies memory
    ensures fresh(t) && t.buffer == memory && t.Valid() && BlankBelow(t.doc) && FreshRow(t.doc)
    ensures t.doc == Ready(Run(Fresh(7), boot))
  {
    t := new Terminal.Init(memory);
    ReadyOnFreshRow(t.doc, boot, ReadyText());
    assert Color(7, 0) == 7;
    hide ReadyText, Terminal.Valid, Run, BlankBelow, FreshRow;
    t.PerformAll(boot);
    t.PerformAll(ReadyText());
    t.SetColor(15, 0);
  }

  lemma ReadyOnFreshRow(d: Document, boot: seq<Op>, ready: seq<Op>)
    requires d.Valid() && BlankBelow(d) && AllValid(boot) && NeverSetsCursor(boot)
    requires EndsFresh(ready) && ready != []
    ensures var e := Apply(Run(Run(d, boot), ready), Op.SetColor(15, 0)); BlankBelow(e) && FreshRow(e)
  {
    RunBlankBelow(d, boot);
    RunBlankBelow(Run(d, boot), ready);
    OutputEndsOnFreshRow(Run(d, boot), ready);
  }

  /** What "the lines the scancodes spell" are: the characters of the keys cut at every Enter, each
      piece folded on its own from an empty line. */
  lemma LinesOfScancodes(codes: seq<byte>)
    ensures var keys := Keystrokes(codes);
            ghost var t, s := TypeAll(NOTHING_TYPED, keys), Segments(keys);
            && |t.lines| == |s| - 1
            && (forall i :: 0 <= i < |t.lines| ==> t.lines[i] == FoldLine([], s[i]))
            && t.current == FoldLine([], s[|s| - 1])
            && Rejoin(s) == keys
            && forall i :: 0 <= i < |s| ==> NEWLINE !in s[i]
  {
    var keys := Keystrokes(codes);
    CharactersAreKeystrokes(codes);
    LinesAreFolds(keys);
    DecodedNeverReturn(NO_MODS, codes);
    SegmentsRejoin(keys);
    forall i | 0 <= i < |Segments(keys)| ensures NEWLINE !in Segments(keys)[i] {
      SegmentsHaveNoEnter(keys, i);
    }
  }

  /** The decoder queues ASCII only, never a NUL and never a carriage return. */
  lemma {:induction false} DecodedNeverReturn(m: Mods, codes: seq<byte>)
    ensures forall i :: 0 <= i < |Characters(m, codes)| ==> 0 < Characters(m, codes)[i] < 127
    ensures RETURN !in Characters(m, codes)
    decreases |codes|
  {
    if codes != [] {
      var c := Decode(m, codes[0]).1;
      assert c.Some? ==> 0 < c.value < 127 && c.value != RETURN by { TablesAgree(codes[0]); }
      hide Decode;
      DecodedNeverReturn(Decode(m, codes[0]).0, codes[1..]);
    }
  }
}
