/** What the shell's key loop (kernel/kernel.c) means: the fold over characters, the lines it
    submits, and what the screen shows while a line is edited. */
module LineEditor {
  import opened Bytes
  import opened VgaText

  const MAX_LINE: nat := 255

  predicate IsEnter(c: byte) { c == NEWLINE || c == RETURN }

  predicate IsPrintable(c: byte) { 32 <= c < 127 }

  ghost predicate Printable(s: seq<byte>) {
    forall i :: 0 <= i < |s| ==> IsPrintable(s[i])
  }

  /** One key that is not Enter: backspace removes the last character, a printable one is
      appended while there is room, anything else is ignored. */
  function EditLine(line: seq<byte>, c: byte): seq<byte> {
    if c == BACKSPACE then (if line == [] then [] else line[..|line| - 1])
    else if IsPrintable(c) && |line| < MAX_LINE then line + [c]
    else line
  }

  function FoldLine(line: seq<byte>, keys: seq<byte>): seq<byte>
    decreases |keys|
  {
    if keys == [] then line else FoldLine(EditLine(line, keys[0]), keys[1..])
  }

  lemma {:induction false} FoldLineAppend(line: seq<byte>, a: seq<byte>, b: seq<byte>)
    ensures FoldLine(line, a + b) == FoldLine(FoldLine(line, a), b)
    decreases |a|
  {
    if a == [] {
      assert a + b == b;
    } else {
      assert (a + b)[1..] == a[1..] + b;
      FoldLineAppend(EditLine(line, a[0]), a[1..], b);
    }
  }

  /** The keys that edit: backspace, and space to tilde. */
  function EditingKeys(keys: seq<byte>): seq<byte> {
    if keys == [] then []
    else (if keys[0] == 8 || 32 <= keys[0] <= 126 then [keys[0]] else []) + EditingKeys(keys[1..])
  }

  /** All others, a tab or an escape say, could as well not have been pressed. */
  lemma {:induction false} OtherKeysIgnored(line: seq<byte>, keys: seq<byte>)
    ensures FoldLine(line, keys) == FoldLine(line, EditingKeys(keys))
    decreases |keys|
  {
    if keys != [] {
      var k, rest := keys[0], EditingKeys(keys[1..]);
      OtherKeysIgnored(EditLine(line, k), keys[1..]);
      if k == 8 || 32 <= k <= 126 {
        assert ([k] + rest)[1..] == rest;
      } else {
        assert EditLine(line, k) == line && [] + rest == rest;
      }
    }
  }

  lemma {:induction false} FoldLineFits(line: seq<byte>, keys: seq<byte>)
    requires Printable(line) && |line| <= MAX_LINE
    ensures Printable(FoldLine(line, keys)) && |FoldLine(line, keys)| <= MAX_LINE
    decreases |keys|
  {
    if keys != [] { FoldLineFits(EditLine(line, keys[0]), keys[1..]); }
  }

  function Repeat(c: byte, n: nat): (s: seq<byte>)
    ensures |s| == n && forall i :: 0 <= i < n ==> s[i] == c
  {
    seq(n, _ => c)
  }

  lemma {:induction false} TypingText(line: seq<byte>, text: seq<byte>)
    requires Printable(text) && |line| <= MAX_LINE
    ensures FoldLine(line, text) == line + (if |line| + |text| <= MAX_LINE then text else text[..MAX_LINE - |line|])
    decreases |text|
  {
    if text == [] {
      assert line + text == line;
    } else {
      TypingText(EditLine(line, text[0]), text[1..]);
      assert text == [text[0]] + text[1..];
    }
  }

  lemma {:induction false} Erasing(line: seq<byte>, n: nat)
    ensures FoldLine(line, Repeat(BACKSPACE, n)) == if n <= |line| then line[..|line| - n] else []
    decreases n
  {
    if n > 0 {
      assert Repeat(BACKSPACE, n)[1..] == Repeat(BACKSPACE, n - 1);
      Erasing(EditLine(line, BACKSPACE), n - 1);
    }
  }

  /** Typing a text and erasing as many characters restores the line exactly when the text fitted
      (or there was nothing to restore): past 255 the text is cut but the erasing is not. */
  lemma BackspacesUndoTyping(line: seq<byte>, text: seq<byte>)
    requires Printable(text) && |line| <= MAX_LINE
    ensures FoldLine(line, text + Repeat(BACKSPACE, |text|)) == line
            <==> |line| + |text| <= MAX_LINE || line == []
  {
    FoldLineAppend(line, text, Repeat(BACKSPACE, |text|));
    TypingText(line, text);
    Erasing(FoldLine(line, text), |text|);
    if |line| + |text| <= MAX_LINE {
      assert (line + text)[..|line|] == line;
    }
  }

  // Submitted lines

  /** The lines given to the command interpreter so far, and the one being edited. */
  datatype Typed = Typed(lines: seq<seq<byte>>, current: seq<byte>)

  const NOTHING_TYPED := Typed([], [])

  function TypeKey(t: Typed, c: byte): Typed {
    if IsEnter(c) then Typed(t.lines + [t.current], [])
    else Typed(t.lines, EditLine(t.current, c))
  }

  function TypeAll(t: Typed, keys: seq<byte>): Typed
    decreases |keys|
  {
    if keys == [] then t else TypeAll(TypeKey(t, keys[0]), keys[1..])
  }

  lemma {:induction false} TypeAllAppend(t: Typed, a: seq<byte>, b: seq<byte>)
    ensures TypeAll(t, a + b) == TypeAll(TypeAll(t, a), b)
    decreases |a|
  {
    if a == [] {
      assert a + b == b;
    } else {
      assert (a + b)[1..] == a[1..] + b;
      TypeAllAppend(TypeKey(t, a[0]), a[1..], b);
    }
  }

  lemma TypeAllSnoc(t: Typed, a: seq<byte>, c: byte)
    ensures TypeAll(t, a + [c]) == TypeKey(TypeAll(t, a), c)
  {
    TypeAllAppend(t, a, [c]);
    var t1 := TypeAll(t, a);
    assert [c][1..] == [];
    assert TypeAll(t1, [c]) == TypeAll(TypeKey(t1, c), []);
  }

  lemma {:induction false} LinesOnlyGrow(t: Typed, keys: seq<byte>)
    ensures t.lines <= TypeAll(t, keys).lines
    decreases |keys|
  {
    if keys != [] { LinesOnlyGrow(TypeKey(t, keys[0]), keys[1..]); }
  }

  /** What has been submitted after some of the keys is a beginning of what all of them submit. */
  lemma PrefixSubmits(some: seq<byte>, all: seq<byte>)
    requires some <= all
    ensures TypeAll(NOTHING_TYPED, some).lines <= TypeAll(NOTHING_TYPED, all).lines
  {
    assert all == some + all[|some|..];
    TypeAllAppend(NOTHING_TYPED, some, all[|some|..]);
    LinesOnlyGrow(TypeAll(NOTHING_TYPED, some), all[|some|..]);
  }

  /** The keys cut at every Enter; the last piece is not finished. */
  function Segments(keys: seq<byte>): (s: seq<seq<byte>>)
    ensures |s| >= 1
    decreases |keys|
  {
    if keys == [] then [[]]
    else
      var before := Segments(keys[..|keys| - 1]);
      var c := keys[|keys| - 1];
      if IsEnter(c) then before + [[]]
      else before[..|before| - 1] + [before[|before| - 1] + [c]]
  }

  /** Each submitted line is the fold of exactly the keys since the previous Enter, from an
      empty line, and so is the current one. */
  lemma {:induction false} LinesAreFolds(keys: seq<byte>)
    ensures var t, s := TypeAll(NOTHING_TYPED, keys), Segments(keys);
            && |t.lines| == |s| - 1
            && (forall i :: 0 <= i < |t.lines| ==> t.lines[i] == FoldLine([], s[i]))
            && t.current == FoldLine([], s[|s| - 1])
    decreases |keys|
  {
    if keys != [] {
      var n := |keys| - 1;
      var c := keys[n];
      assert keys == keys[..n] + [c];
      TypeAllSnoc(NOTHING_TYPED, keys[..n], c);
      LinesAreFolds(keys[..n]);
      var before := Segments(keys[..n]);
      if !IsEnter(c) {
        var last := before[|before| - 1];
        FoldLineAppend([], last, [c]);
        FoldLineOne(FoldLine([], last), c);
      }
    }
  }

  lemma FoldLineOne(line: seq<byte>, c: byte)
    ensures FoldLine(line, [c]) == EditLine(line, c)
  {
    assert [c][1..] == [];
    assert FoldLine(EditLine(line, c), []) == EditLine(line, c);
  }

  /** The pieces are the keys: none contains an Enter... */
  lemma {:induction false} SegmentsHaveNoEnter(keys: seq<byte>, i: nat)
    requires i < |Segments(keys)|
    ensures NEWLINE !in Segments(keys)[i] && RETURN !in Segments(keys)[i]
    decreases |keys|
  {
    if keys != [] {
      var n := |keys| - 1;
      var before := Segments(keys[..n]);
      if i < |before| { SegmentsHaveNoEnter(keys[..n], i); }
    }
  }

  /** ...and rejoined with newlines they give the keys back. */
  lemma {:induction false} SegmentsRejoin(keys: seq<byte>)
    requires RETURN !in keys
    ensures Rejoin(Segments(keys)) == keys
    decreases |keys|
  {
    if keys != [] {
      var n := |keys| - 1;
      var c := keys[n];
      assert keys == keys[..n] + [c] && c in keys;
      SegmentsRejoin(keys[..n]);
      SegmentsStep(keys[..n], c);
    }
  }

  lemma SegmentsStep(keys: seq<byte>, c: byte)
    ensures Rejoin(Segments(keys + [c])) == Rejoin(Segments(keys)) + [if IsEnter(c) then NEWLINE else c]
  {
    assert (keys + [c])[..|keys|] == keys;
    var before := Segments(keys);
    if IsEnter(c) {
      RejoinEnter(before);
    } else {
      RejoinChar(before, c);
    }
  }

  lemma RejoinEnter(before: seq<seq<byte>>)
    requires |before| >= 1
    ensures Rejoin(before + [[]]) == Rejoin(before) + [NEWLINE]
  {
    assert (before + [[]])[..|before|] == before;
  }

  lemma RejoinChar(before: seq<seq<byte>>, c: byte)
    requires |before| >= 1
    ensures Rejoin(before[..|before| - 1] + [before[|before| - 1] + [c]]) == Rejoin(before) + [c]
  {
    var m := |before| - 1;
    var after := before[..m] + [before[m] + [c]];
    assert after[..m] == before[..m] && after[m] == before[m] + [c];
    if m > 0 {
      var front := Rejoin(before[..m]) + [NEWLINE];
      assert Rejoin(after) == front + after[m] && Rejoin(before) == front + before[m];
      assert front + (before[m] + [c]) == front + before[m] + [c];
    }
  }

  function Rejoin(segments: seq<seq<byte>>): seq<byte>
    requires |segments| >= 1
    decreases |segments|
  {
    var m := |segments| - 1;
    if m == 0 then segments[0] else Rejoin(segments[..m]) + [NEWLINE] + segments[m]
  }

  // The screen during editing

  /** The line and the document under one key: what is echoed is decided by what is edited. */
  datatype Screen = Screen(line: seq<byte>, doc: Document)

  function EchoKey(s: Screen, c: byte): (r: Screen)
    requires s.doc.Valid()
    ensures r.doc.Valid() && r.line == EditLine(s.line, c) && r.doc.color == s.doc.color
  {
    PutValid(s.doc, c);
    if c == BACKSPACE then
      if s.line == [] then s else Screen(s.line[..|s.line| - 1], s.doc.Put(BACKSPACE))
    else if IsPrintable(c) && |s.line| < MAX_LINE then Screen(s.line + [c], s.doc.Put(c))
    else s
  }

  function EchoAll(s: Screen, keys: seq<byte>): (r: Screen)
    requires s.doc.Valid()
    ensures r.doc.Valid() && r.line == FoldLine(s.line, keys) && r.doc.color == s.doc.color
    decreases |keys|
  {
    if keys == [] then s else EchoAll(EchoKey(s, keys[0]), keys[1..])
  }

  /** The document shows the text from position `base` on, then only blanks, and the cursor is
      just after the last character; what precedes `base` is as it was. */
  ghost predicate Shows(d: Document, base: nat, before: seq<Cell>, text: seq<byte>) {
    && |d.cells| >= base + |text| && d.pos == base + |text|
    && d.cells[..base] == before
    && (forall i :: 0 <= i < |text| ==> d.cells[base + i] == Entry(text[i], d.color))
    && BlankFrom(d, d.pos)
  }

  /** The line being edited and the text the screen shows for it. */
  datatype Echoed = Echoed(line: seq<byte>, shown: seq<byte>)

  /** A backspace is stuck when it deletes from the line while what is shown ends just before
      column 0, `base` being the position of the prompt's end. */
  predicate Stuck(e: Echoed, base: nat, c: byte) {
    c == BACKSPACE && e.line != [] && (base + |e.shown|) % WIDTH == 0
  }

  /** One key: a stuck backspace erases nothing of what is shown. */
  function EchoText(e: Echoed, base: nat, c: byte): (r: Echoed)
    ensures r.line == EditLine(e.line, c)
  {
    if c == BACKSPACE then
      if e.line == [] then e
      else Echoed(e.line[..|e.line| - 1],
                if e.shown == [] || Stuck(e, base, c) then e.shown else e.shown[..|e.shown| - 1])
    else if IsPrintable(c) && |e.line| < MAX_LINE then Echoed(e.line + [c], e.shown + [c])
    else e
  }

  function EchoTexts(e: Echoed, base: nat, keys: seq<byte>): (r: Echoed)
    ensures r.line == FoldLine(e.line, keys)
    decreases |keys|
  {
    if keys == [] then e else EchoTexts(EchoText(e, base, keys[0]), base, keys[1..])
  }

  lemma {:induction false} EchoTextsLast(e: Echoed, base: nat, keys: seq<byte>, c: byte)
    ensures EchoTexts(e, base, keys + [c]) == EchoText(EchoTexts(e, base, keys), base, c)
    decreases |keys|
  {
    if keys == [] {
      assert ([] + [c])[0] == c && ([] + [c])[1..] == [];
    } else {
      assert (keys + [c])[1..] == keys[1..] + [c];
      EchoTextsLast(EchoText(e, base, keys[0]), base, keys[1..], c);
    }
  }

  /** How many of the keys get stuck. */
  function StuckCount(e: Echoed, base: nat, keys: seq<byte>): nat
    decreases |keys|
  {
    if keys == [] then 0
    else (if Stuck(e, base, keys[0]) then 1 else 0) + StuckCount(EchoText(e, base, keys[0]), base, keys[1..])
  }

  /** What is shown is ahead of the line by one character for each stuck backspace. */
  lemma {:induction false} ShownAhead(e: Echoed, base: nat, keys: seq<byte>)
    requires |e.shown| >= |e.line|
    ensures var r := EchoTexts(e, base, keys);
            |r.shown| - |r.line| == |e.shown| - |e.line| + StuckCount(e, base, keys)
    decreases |keys|
  {
    if keys != [] { ShownAhead(EchoText(e, base, keys[0]), base, keys[1..]); }
  }

  /** It is the line itself exactly when no backspace was stuck. */
  lemma {:induction false} ShownIsLine(line: seq<byte>, base: nat, keys: seq<byte>)
    ensures var r := EchoTexts(Echoed(line, line), base, keys);
            && (r.shown == r.line <==> !EverStuck(line, base, keys))
            && (StuckCount(Echoed(line, line), base, keys) > 0 <==> EverStuck(line, base, keys))
    decreases |keys|
  {
    if keys == [] {
      assert !EverStuck(line, base, []);
    } else {
      var e := Echoed(line, line);
      EverStuckFirst(line, base, keys);
      ShownAhead(e, base, keys);
      hide EverStuck, FoldLine;
      if !Stuck(e, base, keys[0]) {
        ShownIsLine(EditLine(line, keys[0]), base, keys[1..]);
      }
    }
  }

  /** Key n is a backspace that deletes from a line ending, `base` being the prompt's end, just
      before column 0. */
  ghost predicate StuckAt(line: seq<byte>, base: nat, keys: seq<byte>, n: nat) {
    && n < |keys| && keys[n] == BACKSPACE
    && FoldLine(line, keys[..n]) != [] && (base + |FoldLine(line, keys[..n])|) % WIDTH == 0
  }

  ghost predicate EverStuck(line: seq<byte>, base: nat, keys: seq<byte>) {
    exists n: nat :: StuckAt(line, base, keys, n)
  }

  lemma StuckLater(line: seq<byte>, base: nat, keys: seq<byte>, n: nat)
    requires keys != []
    ensures StuckAt(line, base, keys, n + 1) <==> StuckAt(EditLine(line, keys[0]), base, keys[1..], n)
  {
    if n < |keys| - 1 {
      assert keys[..n + 1][0] == keys[0] && keys[..n + 1][1..] == keys[1..][..n];
    }
  }

  lemma EverStuckFirst(line: seq<byte>, base: nat, keys: seq<byte>)
    requires keys != []
    ensures EverStuck(line, base, keys)
            <==> (keys[0] == BACKSPACE && line != [] && (base + |line|) % WIDTH == 0)
                 || EverStuck(EditLine(line, keys[0]), base, keys[1..])
  {
    assert keys[..0] == [];
    assert StuckAt(line, base, keys, 0) <==> keys[0] == BACKSPACE && line != [] && (base + |line|) % WIDTH == 0;
    hide StuckAt;
    if EverStuck(line, base, keys) {
      var n: nat :| StuckAt(line, base, keys, n);
      if n > 0 { StuckLater(line, base, keys, n - 1); }
    }
    if EverStuck(EditLine(line, keys[0]), base, keys[1..]) {
      var m: nat :| StuckAt(EditLine(line, keys[0]), base, keys[1..], m);
      StuckLater(line, base, keys, m);
    }
  }

  lemma EverStuckLast(line: seq<byte>, base: nat, keys: seq<byte>, c: byte)
    ensures var l := FoldLine(line, keys);
            EverStuck(line, base, keys + [c])
            <==> EverStuck(line, base, keys) || (c == BACKSPACE && l != [] && (base + |l|) % WIDTH == 0)
  {
    var more, k := keys + [c], |keys|;
    assert more[..k] == keys;
    assert StuckAt(line, base, more, k) <==>
           c == BACKSPACE && FoldLine(line, keys) != [] && (base + |FoldLine(line, keys)|) % WIDTH == 0;
    if EverStuck(line, base, more) {
      var n: nat :| StuckAt(line, base, more, n);
      if n < k { StuckBefore(line, base, keys, c, n); }
    }
    if EverStuck(line, base, keys) {
      var n: nat :| StuckAt(line, base, keys, n);
      StuckBefore(line, base, keys, c, n);
    }
  }

  lemma StuckBefore(line: seq<byte>, base: nat, keys: seq<byte>, c: byte, n: nat)
    requires n < |keys|
    ensures StuckAt(line, base, keys + [c], n) <==> StuckAt(line, base, keys, n)
  {
    hide FoldLine;
    assert (keys + [c])[..n] == keys[..n];
  }

  /** Line and screen under one key, whatever the key and wherever the prompt ends. */
  lemma ShownStep(s: Screen, base: nat, before: seq<Cell>, shown: seq<byte>, c: byte)
    requires s.doc.Valid() && Shows(s.doc, base, before, shown) && |shown| >= |s.line|
    ensures var e := EchoText(Echoed(s.line, shown), base, c);
            |e.shown| >= |e.line| && Shows(EchoKey(s, c).doc, base, before, e.shown)
  {
    if c == BACKSPACE {
      if s.line != [] && s.doc.pos % WIDTH != 0 { ShownErased(s.doc, base, before, shown); }
    } else if IsPrintable(c) && |s.line| < MAX_LINE {
      ShownTyped(s.doc, base, before, shown, c);
    }
  }

  lemma ShownTyped(d: Document, base: nat, before: seq<Cell>, shown: seq<byte>, c: byte)
    requires d.Valid() && Shows(d, base, before, shown) && IsPrintable(c)
    ensures Shows(d.Put(c), base, before, shown + [c])
  {
    BlankGlyph(d.color);
    assert d.Put(c).cells[base + |shown|] == Entry(c, d.color);
    assert d.Put(c).cells[..base] == d.cells[..base];
  }

  lemma ShownErased(d: Document, base: nat, before: seq<Cell>, shown: seq<byte>)
    requires d.Valid() && Shows(d, base, before, shown) && shown != [] && d.pos % WIDTH != 0
    ensures Shows(d.Put(BACKSPACE), base, before, shown[..|shown| - 1])
  {
    BlankGlyph(d.color);
    assert d.Put(BACKSPACE).cells[..base] == d.cells[..base];
  }

  /** For any keys the screen shows exactly that text after the prompt, then blanks, with the
      cursor after it. */
  lemma {:induction false} ShownExact(s: Screen, base: nat, before: seq<Cell>, shown: seq<byte>, keys: seq<byte>)
    requires s.doc.Valid() && Shows(s.doc, base, before, shown) && |shown| >= |s.line|
    ensures Shows(EchoAll(s, keys).doc, base, before, EchoTexts(Echoed(s.line, shown), base, keys).shown)
    decreases |keys|
  {
    if keys != [] {
      var e := EchoText(Echoed(s.line, shown), base, keys[0]);
      ShownStep(s, base, before, shown, keys[0]);
      hide Shows, EchoKey, EchoText;
      ShownExact(EchoKey(s, keys[0]), base, before, e.shown, keys[1..]);
    }
  }

  /** So it shows the prompt, the line and the cursor after it if and only if no backspace ever
      deleted from a line that ended just before column 0. */
  lemma DisplayExact(s: Screen, base: nat, before: seq<Cell>, keys: seq<byte>)
    requires s.doc.Valid() && Shows(s.doc, base, before, s.line)
    ensures Shows(EchoAll(s, keys).doc, base, before, FoldLine(s.line, keys)) <==> !EverStuck(s.line, base, keys)
  {
    ShownExact(s, base, before, s.line, keys);
    ShownIsLine(s.line, base, keys);
    ShownAhead(Echoed(s.line, s.line), base, keys);
    hide EverStuck, FoldLine, EchoAll, EchoTexts, StuckCount, BlankFrom;
  }

  /** The inputs that part them first: a text that ends just before column 0, and a backspace, which
      takes the last character from the line but not from the screen. */
  lemma StuckTyping(base: nat, text: seq<byte>)
    requires Printable(text) && 0 < |text| <= MAX_LINE && (base + |text|) % WIDTH == 0
    ensures EverStuck([], base, text + [BACKSPACE])
    ensures EchoTexts(Echoed([], []), base, text + [BACKSPACE]) == Echoed(text[..|text| - 1], text)
  {
    hide EverStuck, EchoTexts, FoldLine;
    ShownTyping(base, text);
    EverStuckLast([], base, text, BACKSPACE);
    EchoTextsLast(Echoed([], []), base, text, BACKSPACE);
  }

  /** At the shell's prompt of 11 characters the shortest have 69. */
  lemma StuckExample()
    ensures EverStuck([], 11, Repeat(97, 69) + [BACKSPACE])
  {
    hide EverStuck;
    StuckTyping(11, Repeat(97, 69));
  }

  lemma LastKey(keys: seq<byte>)
    requires keys != []
    ensures keys == keys[..|keys| - 1] + [keys[|keys| - 1]]
  {
  }

  lemma {:induction false} ShownTyping(base: nat, text: seq<byte>)
    requires Printable(text) && |text| <= MAX_LINE
    ensures EchoTexts(Echoed([], []), base, text) == Echoed(text, text)
    decreases |text|
  {
    if text != [] {
      hide EchoTexts, FoldLine;
      var n := |text| - 1;
      ShownTyping(base, text[..n]);
      LastKey(text);
      EchoTextsLast(Echoed([], []), base, text[..n], text[n]);
    }
  }

  /** Every line on the way is short enough to stay in the prompt's row. */
  ghost predicate StaysInRow(line: seq<byte>, base: nat, keys: seq<byte>) {
    forall n :: 0 <= n <= |keys| ==> base % WIDTH + |FoldLine(line, keys[..n])| < WIDTH
  }

  lemma ShortNeverStuck(line: seq<byte>, base: nat, keys: seq<byte>)
    requires StaysInRow(line, base, keys)
    ensures !EverStuck(line, base, keys)
  {
    forall n: nat | n < |keys| ensures !StuckAt(line, base, keys, n) {
      RowEndAhead(base, |FoldLine(line, keys[..n])|);
    }
  }

  lemma RowEndAhead(base: nat, n: nat)
    requires base % WIDTH + n < WIDTH
    ensures (base + n) / WIDTH == base / WIDTH && (base + n) % WIDTH == base % WIDTH + n
  {
  }

  /** While the prompt's end column plus the line length stays below 80, the row shows the
      prompt, the line, then blanks, whatever was scrolled before the prompt. */
  lemma DisplayInOneRow(s: Screen, base: nat, before: seq<Cell>, keys: seq<byte>)
    requires s.doc.Valid() && Shows(s.doc, base, before, s.line) && StaysInRow(s.line, base, keys)
    ensures Shows(EchoAll(s, keys).doc, base, before, FoldLine(s.line, keys))
    ensures EchoAll(s, keys).doc.pos / WIDTH == base / WIDTH
  {
    ShortNeverStuck(s.line, base, keys);
    DisplayExact(s, base, before, keys);
    assert keys[..|keys|] == keys;
    RowEndAhead(base, |FoldLine(s.line, keys)|);
  }

  /** Output that leaves the cursor at the start of a fresh row: none, or ending in a newline,
      or clearing the screen; it never moves the cursor back. */
  ghost predicate EndsFresh(ops: seq<Op>) {
    && AllValid(ops) && NeverSetsCursor(ops)
    && (ops == [] ||
        var last := ops[|ops| - 1];
        || last == PutChar(NEWLINE)
        || last == Clear
        || (last.Write? && last.text != [] && last.text[|last.text| - 1] == NEWLINE))
  }

  /** The cursor is in column 0 and everything from it on is blank. */
  ghost predicate FreshRow(d: Document) {
    d.pos % WIDTH == 0 && BlankFrom(d, d.pos)
  }

  lemma NewlineMakesFresh(d: Document)
    requires d.Valid() && BlankBelow(d)
    ensures d.Put(NEWLINE).Valid() && FreshRow(d.Put(NEWLINE))
  {
    PutValid(d, NEWLINE);
    BlankGlyph(d.color);
  }

  lemma {:induction false} OutputEndsOnFreshRow(d: Document, ops: seq<Op>)
    requires d.Valid() && BlankBelow(d) && EndsFresh(ops) && (ops == [] ==> FreshRow(d))
    ensures FreshRow(Run(d, ops))
  {
    if ops != [] {
      var n := |ops| - 1;
      var last := ops[n];
      RunAppend(d, ops[..n], [last]);
      assert ops == ops[..n] + [last];
      RunBlankBelow(d, ops[..n]);
      var e := Run(d, ops[..n]);
      assert [last][1..] == [];
      assert Run(e, [last]) == Run(Apply(e, last), []);
      match last {
        case Write(text) =>
          var m := |text| - 1;
          assert text == text[..m] + [NEWLINE];
          PutAllAppend(e, text[..m], [NEWLINE]);
          PutAllBlankBelow(e, text[..m]);
          var f := PutAll(e, text[..m]);
          NewlineMakesFresh(f);
          assert [NEWLINE][1..] == [];
          assert PutAll(f, [NEWLINE]) == PutAll(f.Put(NEWLINE), []);
        case Clear => BlankGlyph(e.color);
        case _ => NewlineMakesFresh(e);
      }
    }
  }

  /** What is above the line ends with the prompt. */
  ghost predicate Prompted(above: seq<Cell>, prompt: seq<byte>) {
    && |above| >= |prompt|
    && forall i :: 0 <= i < |prompt| ==> Glyph(above[|above| - |prompt| + i]) == prompt[i]
  }

  /** A prompt written at any column, where everything ahead is blank, starts a display of the
      empty line. */
  lemma PromptStartsDisplay(d: Document, prompt: seq<byte>)
    requires d.Valid() && BlankFrom(d, d.pos) && Printable(prompt)
    ensures var e := PutAll(d, prompt);
            && Shows(e, e.pos, e.cells[..e.pos], [])
            && Prompted(e.cells[..e.pos], prompt) && e.pos == d.pos + |prompt|
            && |e.cells| >= |d.cells| && e.cells[..d.pos] == d.cells[..d.pos]
  {
    BlankGlyph(d.color);
    PlainTextConsecutive(d, prompt);
    forall i | 0 <= i < |prompt| ensures Glyph(PutAll(d, prompt).cells[d.pos + i]) == prompt[i] {
      EntryDecodes(prompt[i], d.color);
    }
  }
}
