/** The scancode decoder of kernel/keyboard.c, as a step function over the modifier flags. */
module Scancode {
  import opened Bytes

  // The tables up to the space bar; every later entry is zero.

  const PLAIN_ROW_1: seq<byte> := [0, 27, 49, 50, 51, 52, 53, 54, 55, 56, 57, 48, 45, 61, 8]
  const PLAIN_ROW_2: seq<byte> := [9, 113, 119, 101, 114, 116, 121, 117, 105, 111, 112, 91, 93, 10]
  const PLAIN_ROW_3: seq<byte> := [0, 97, 115, 100, 102, 103, 104, 106, 107, 108, 59, 39, 96]
  const PLAIN_ROW_4: seq<byte> := [0, 92, 122, 120, 99, 118, 98, 110, 109, 44, 46, 47, 0, 42, 0, 32]
  const PLAIN_TABLE: seq<byte> := PLAIN_ROW_1 + PLAIN_ROW_2 + PLAIN_ROW_3 + PLAIN_ROW_4

  const SHIFT_ROW_1: seq<byte> := [0, 27, 33, 64, 35, 36, 37, 94, 38, 42, 40, 41, 95, 43, 8]
  const SHIFT_ROW_2: seq<byte> := [9, 81, 87, 69, 82, 84, 89, 85, 73, 79, 80, 123, 125, 10]
  const SHIFT_ROW_3: seq<byte> := [0, 65, 83, 68, 70, 71, 72, 74, 75, 76, 58, 34, 126]
  const SHIFT_ROW_4: seq<byte> := [0, 124, 90, 88, 67, 86, 66, 78, 77, 60, 62, 63, 0, 42, 0, 32]
  const SHIFT_TABLE: seq<byte> := SHIFT_ROW_1 + SHIFT_ROW_2 + SHIFT_ROW_3 + SHIFT_ROW_4

  function Lookup(table: seq<byte>, code: byte): byte {
    if code < |table| then table[code] else 0
  }

  predicate IsLower(c: byte) { 97 <= c <= 122 }

  predicate IsUpper(c: byte) { 65 <= c <= 90 }

  predicate KeyAgrees(p: byte, s: byte) {
    && (IsLower(p) <==> IsUpper(s)) && (IsLower(p) ==> s == p - 32)
    && (p < 33 || s < 33 ==> p == s)
    && p < 127 && s < 127
    && p != 13 && s != 13
  }

  ghost predicate RowsAgree(p: seq<byte>, s: seq<byte>) {
    |p| == |s| && forall i :: 0 <= i < |p| ==> KeyAgrees(p[i], s[i])
  }

  lemma RowsJoin(p: seq<byte>, s: seq<byte>, p': seq<byte>, s': seq<byte>)
    requires RowsAgree(p, s) && RowsAgree(p', s')
    ensures RowsAgree(p + p', s + s')
  {
  }

  lemma Row1Agrees()
    ensures RowsAgree(PLAIN_ROW_1, SHIFT_ROW_1)
  {
  }

  lemma Row2Agrees()
    ensures RowsAgree(PLAIN_ROW_2, SHIFT_ROW_2)
  {
  }

  lemma Row3Agrees()
    ensures RowsAgree(PLAIN_ROW_3, SHIFT_ROW_3)
  {
  }

  lemma Row4Agrees()
    ensures RowsAgree(PLAIN_ROW_4, SHIFT_ROW_4)
  {
  }

  /** The tables agree: shift turns each letter into its capital and nothing else into one,
      leaves the control keys alone, and makes no key appear or vanish; neither has a carriage
      return or anything beyond ASCII. */
  lemma TablesAgree(code: byte)
    ensures KeyAgrees(Lookup(PLAIN_TABLE, code), Lookup(SHIFT_TABLE, code))
  {
    Row1Agrees();
    Row2Agrees();
    Row3Agrees();
    Row4Agrees();
    assert KeyAgrees(0, 0);
    hide KeyAgrees;
    RowsJoin(PLAIN_ROW_1, SHIFT_ROW_1, PLAIN_ROW_2, SHIFT_ROW_2);
    RowsJoin(PLAIN_ROW_1 + PLAIN_ROW_2, SHIFT_ROW_1 + SHIFT_ROW_2, PLAIN_ROW_3, SHIFT_ROW_3);
    RowsJoin(PLAIN_ROW_1 + PLAIN_ROW_2 + PLAIN_ROW_3, SHIFT_ROW_1 + SHIFT_ROW_2 + SHIFT_ROW_3,
             PLAIN_ROW_4, SHIFT_ROW_4);
  }

  datatype Mods = Mods(shift: bool, ctrl: bool, alt: bool, caps: bool, extended: bool)

  const NO_MODS := Mods(false, false, false, false, false)

  const LSHIFT: byte := 0x2A
  const RSHIFT: byte := 0x36
  const LCTRL: byte := 0x1D
  const LALT: byte := 0x38
  const CAPSLOCK: byte := 0x3A
  const EXTENDED: byte := 0xE0

  function Released(m: Mods, make: byte): Mods {
    if make == LSHIFT || make == RSHIFT then m.(shift := false)
    else if make == LCTRL then m.(ctrl := false)
    else if make == LALT then m.(alt := false)
    else m
  }

  /** One byte from the keyboard: the new flags and the character, if any, to queue. */
  function Decode(m: Mods, code: byte): (Mods, Option<byte>) {
    if code >= 0x80 then (Released(m, code - 0x80).(extended := false), None)
    else if code == EXTENDED then (m.(extended := true), None)
    else if code == LSHIFT || code == RSHIFT then (m.(shift := true, extended := false), None)
    else if code == LCTRL then (m.(ctrl := true, extended := false), None)
    else if code == LALT then (m.(alt := true, extended := false), None)
    else if code == CAPSLOCK then (m.(caps := !m.caps, extended := false), None)
    else
      var c := Lookup(if m.shift != m.caps then SHIFT_TABLE else PLAIN_TABLE, code);
      (m.(extended := false), if c != 0 then Some(c) else None)
  }

  function ToSeq(o: Option<byte>): seq<byte> { if o.Some? then [o.value] else [] }

  /** Part of b, in the same order. */
  ghost predicate Within(a: seq<byte>, b: seq<byte>)
    decreases |b|
  {
    a == [] ||
    (b != [] &&
     ((a[|a| - 1] == b[|b| - 1] && Within(a[..|a| - 1], b[..|b| - 1])) || Within(a, b[..|b| - 1])))
  }

  lemma WithinLast(a: seq<byte>, b: seq<byte>, c: byte)
    requires Within(a, b)
    ensures Within(a, b + [c]) && Within(a + [c], b + [c])
  {
    assert (b + [c])[..|b|] == b && (a + [c])[..|a|] == a;
  }

  lemma {:induction false} WithinMore(a: seq<byte>, b: seq<byte>, t: seq<byte>)
    requires Within(a, b)
    ensures Within(a, b + t)
    decreases |t|
  {
    if t == [] {
      assert b + t == b;
    } else {
      var n := |t| - 1;
      WithinMore(a, b, t[..n]);
      WithinLast(a, b + t[..n], t[n]);
      assert b + t == b + t[..n] + [t[n]];
    }
  }

  /** A part as long as the whole is the whole. */
  lemma {:induction false} WithinAll(a: seq<byte>, b: seq<byte>)
    requires Within(a, b)
    ensures |a| <= |b| && (|a| == |b| ==> a == b)
    decreases |b|
  {
    if a != [] {
      var m, n := |a| - 1, |b| - 1;
      if a[m] == b[n] && Within(a[..m], b[..n]) {
        WithinAll(a[..m], b[..n]);
        assert a == a[..m] + [a[m]] && b == b[..n] + [b[n]];
      } else {
        WithinAll(a, b[..n]);
      }
    }
  }

  function Flags(m: Mods, codes: seq<byte>): Mods
    decreases |codes|
  {
    if codes == [] then m else Flags(Decode(m, codes[0]).0, codes[1..])
  }

  /** Every character a run of scancodes produces, in order. */
  function Characters(m: Mods, codes: seq<byte>): seq<byte>
    decreases |codes|
  {
    if codes == [] then [] else ToSeq(Decode(m, codes[0]).1) + Characters(Decode(m, codes[0]).0, codes[1..])
  }

  lemma {:induction false} DecodeAppend(m: Mods, a: seq<byte>, b: seq<byte>)
    ensures Flags(m, a + b) == Flags(Flags(m, a), b)
    ensures Characters(m, a + b) == Characters(m, a) + Characters(Flags(m, a), b)
    decreases |a|
  {
    if a == [] {
      assert a + b == b;
    } else {
      assert (a + b)[1..] == a[1..] + b;
      DecodeAppend(Decode(m, a[0]).0, a[1..], b);
    }
  }

  lemma DecodeSnoc(m: Mods, a: seq<byte>, code: byte)
    ensures Flags(m, a + [code]) == Decode(Flags(m, a), code).0
    ensures Characters(m, a + [code]) == Characters(m, a) + ToSeq(Decode(Flags(m, a), code).1)
  {
    DecodeAppend(m, a, [code]);
    assert Characters(Flags(m, a), [code]) == ToSeq(Decode(Flags(m, a), code).1) + [];
  }

  // What the flags mean

  predicate IsShift(code: byte) {
    var k := if code >= 0x80 then code - 0x80 else code;
    k == LSHIFT || k == RSHIFT
  }

  /** Whether the last byte of either shift key was a press. */
  function LastShiftDown(start: bool, codes: seq<byte>): bool {
    if codes == [] then start
    else
      var last := codes[|codes| - 1];
      if IsShift(last) then last < 0x80 else LastShiftDown(start, codes[..|codes| - 1])
  }

  function CapsPresses(codes: seq<byte>): nat {
    if codes == [] then 0 else CapsPresses(codes[..|codes| - 1]) + if codes[|codes| - 1] == CAPSLOCK then 1 else 0
  }

  lemma DecodeFlags(m: Mods, code: byte)
    ensures Decode(m, code).0.shift == (if IsShift(code) then code < 0x80 else m.shift)
    ensures Decode(m, code).0.caps == (m.caps != (code == CAPSLOCK))
  {
  }

  /** The shift flag follows the most recent shift byte, whichever shift key it came from... */
  lemma {:induction false} ShiftMeaning(m: Mods, codes: seq<byte>)
    ensures Flags(m, codes).shift == LastShiftDown(m.shift, codes)
    decreases |codes|
  {
    if codes != [] {
      var n := |codes| - 1;
      FlagsOfLast(m, codes);
      ShiftMeaning(m, codes[..n]);
      DecodeFlags(Flags(m, codes[..n]), codes[n]);
      hide Decode, Flags;
    }
  }

  /** ...and caps lock is the parity of its presses. */
  lemma {:induction false} CapsMeaning(m: Mods, codes: seq<byte>)
    ensures Flags(m, codes).caps == (m.caps != (CapsPresses(codes) % 2 == 1))
    decreases |codes|
  {
    if codes != [] {
      var n := |codes| - 1;
      FlagsOfLast(m, codes);
      CapsMeaning(m, codes[..n]);
      DecodeFlags(Flags(m, codes[..n]), codes[n]);
      hide Decode, Flags;
    }
  }

  lemma FlagsOfLast(m: Mods, codes: seq<byte>)
    requires codes != []
    ensures Flags(m, codes) == Decode(Flags(m, codes[..|codes| - 1]), codes[|codes| - 1]).0
  {
    var n := |codes| - 1;
    assert codes == codes[..n] + [codes[n]];
    DecodeSnoc(m, codes[..n], codes[n]);
  }

  // What a key types

  /** What is printed on a key cap. */
  datatype Keycap = Bare | Letter(small: byte) | Symbols(plain: byte, shifted: byte) | Other(c: byte)

  function CharCode(c: char): byte { if c < 128 as char then c as int else 0 }

  /** The keys of scan code set 1 on a US keyboard. */
  function Legend(code: byte): Keycap {
    if code == 0x01 then Other(27)
    else if 0x02 <= code <= 0x0D then
      Symbols(CharCode("1234567890-="[code - 0x02]), CharCode("!@#$%^&*()_+"[code - 0x02]))
    else if code == 0x0E then Other(8)
    else if code == 0x0F then Other(9)
    else if 0x10 <= code <= 0x19 then Letter(CharCode("qwertyuiop"[code - 0x10]))
    else if 0x1A <= code <= 0x1B then Symbols(CharCode("[]"[code - 0x1A]), CharCode("{}"[code - 0x1A]))
    else if code == 0x1C then Other(10)
    else if 0x1E <= code <= 0x26 then Letter(CharCode("asdfghjkl"[code - 0x1E]))
    else if 0x27 <= code <= 0x29 then Symbols(CharCode(";'`"[code - 0x27]), CharCode(":\"~"[code - 0x27]))
    else if code == 0x2B then Symbols(CharCode('\\'), CharCode('|'))
    else if 0x2C <= code <= 0x32 then Letter(CharCode("zxcvbnm"[code - 0x2C]))
    else if 0x33 <= code <= 0x35 then Symbols(CharCode(",./"[code - 0x33]), CharCode("<>?"[code - 0x33]))
    else if code == 0x37 then Other(CharCode('*'))
    else if code == 0x39 then Other(CharCode(' '))
    else Bare
  }

  function Capital(c: byte): byte { if IsLower(c) then c - 32 else c }

  /** The character of a key: the capital or the upper symbol when shifted. */
  function KeyOf(k: Keycap, shifted: bool): Option<byte> {
    match k
    case Bare => None
    case Letter(small) => Some(if shifted then Capital(small) else small)
    case Symbols(p, s) => Some(if shifted then s else p)
    case Other(c) => Some(c)
  }

  /** The table entry of a key, 0 for none. */
  function EntryOf(shifted: bool, code: byte): Option<byte> {
    var c := Lookup(if shifted then SHIFT_TABLE else PLAIN_TABLE, code);
    if c != 0 then Some(c) else None
  }

  lemma LegendRow1(code: byte, shifted: bool)
    requires code < 15
    ensures var c := (if shifted then SHIFT_ROW_1 else PLAIN_ROW_1)[code];
            (if c != 0 then Some(c) else None) == KeyOf(Legend(code), shifted)
  {
  }

  lemma LegendRow2(code: byte, shifted: bool)
    requires 15 <= code < 29
    ensures var c := (if shifted then SHIFT_ROW_2 else PLAIN_ROW_2)[code - 15];
            (if c != 0 then Some(c) else None) == KeyOf(Legend(code), shifted)
  {
  }

  lemma LegendRow3(code: byte, shifted: bool)
    requires 29 <= code < 42
    ensures var c := (if shifted then SHIFT_ROW_3 else PLAIN_ROW_3)[code - 29];
            (if c != 0 then Some(c) else None) == KeyOf(Legend(code), shifted)
  {
  }

  lemma LegendRow4(code: byte, shifted: bool)
    requires 42 <= code < 58
    ensures var c := (if shifted then SHIFT_ROW_4 else PLAIN_ROW_4)[code - 42];
            (if c != 0 then Some(c) else None) == KeyOf(Legend(code), shifted)
  {
  }

  lemma RowOf<T>(a: seq<T>, b: seq<T>, c: seq<T>, d: seq<T>, i: nat)
    requires |a| == 15 && |b| == 14 && |c| == 13 && |d| == 16 && i < 58
    ensures |a + b + c + d| == 58
    ensures (a + b + c + d)[i] ==
            if i < 15 then a[i] else if i < 29 then b[i - 15] else if i < 42 then c[i - 29] else d[i - 42]
  {
  }

  /** The tables are the legends. */
  lemma LegendAgrees(code: byte, shifted: bool)
    requires code < 0x80
    ensures EntryOf(shifted, code) == KeyOf(Legend(code), shifted)
  {
    TableSizes();
    if code < 58 {
      if code < 15 {
        LegendRow1(code, shifted);
      } else if code < 29 {
        LegendRow2(code, shifted);
      } else if code < 42 {
        LegendRow3(code, shifted);
      } else {
        LegendRow4(code, shifted);
      }
      hide Legend, KeyOf;
      RowOf(PLAIN_ROW_1, PLAIN_ROW_2, PLAIN_ROW_3, PLAIN_ROW_4, code);
      RowOf(SHIFT_ROW_1, SHIFT_ROW_2, SHIFT_ROW_3, SHIFT_ROW_4, code);
    }
  }

  lemma TableSizes()
    ensures |PLAIN_ROW_1| == |SHIFT_ROW_1| == 15 && |PLAIN_ROW_2| == |SHIFT_ROW_2| == 14
    ensures |PLAIN_ROW_3| == |SHIFT_ROW_3| == 13 && |PLAIN_ROW_4| == |SHIFT_ROW_4| == 16
    ensures |PLAIN_TABLE| == |SHIFT_TABLE| == 58
  {
  }

  lemma DecodeIsKey(m: Mods, code: byte)
    ensures Decode(m, code).1 == if code < 0x80 then KeyOf(Legend(code), m.shift != m.caps) else None
  {
    if code < 0x80 { LegendAgrees(code, m.shift != m.caps); }
    hide Lookup, KeyOf;
  }

  /** Whether keys are shifted after these bytes: by a shift key or by caps lock, but not by both. */
  function Shifted(codes: seq<byte>): bool {
    LastShiftDown(false, codes) != (CapsPresses(codes) % 2 == 1)
  }

  /** What a run of bytes types, by the legends of the keys alone: releases type nothing. */
  function Keystrokes(codes: seq<byte>): seq<byte> {
    if codes == [] then []
    else
      var n := |codes| - 1;
      Keystrokes(codes[..n]) +
      if codes[n] < 0x80 then ToSeq(KeyOf(Legend(codes[n]), Shifted(codes[..n]))) else []
  }

  /** The decoder queues exactly that. */
  lemma {:induction false} CharactersAreKeystrokes(codes: seq<byte>)
    ensures Characters(NO_MODS, codes) == Keystrokes(codes)
    decreases |codes|
  {
    if codes != [] {
      var n := |codes| - 1;
      var before := codes[..n];
      CharactersAreKeystrokes(before);
      assert codes == before + [codes[n]];
      DecodeSnoc(NO_MODS, before, codes[n]);
      ShiftMeaning(NO_MODS, before);
      CapsMeaning(NO_MODS, before);
      DecodeIsKey(Flags(NO_MODS, before), codes[n]);
      hide Decode, Flags, Characters, Legend, KeyOf;
    }
  }

  /** In particular a letter key types its small letter or its capital, 32 below it. */
  lemma LetterMeaning(codes: seq<byte>, code: byte)
    requires Legend(code).Letter?
    ensures IsLower(Legend(code).small)
    ensures Characters(NO_MODS, codes + [code]) ==
            Characters(NO_MODS, codes) + [if Shifted(codes) then Legend(code).small - 32 else Legend(code).small]
  {
    hide Legend, Characters, Shifted, KeyOf, Keystrokes;
    LettersAreLetters(code);
    CharactersAreKeystrokes(codes);
    CharactersAreKeystrokes(codes + [code]);
    OneMoreKey(codes, code);
    LetterKey(Legend(code), Shifted(codes));
  }

  /** A key with two symbols types the upper one then, and the lower one otherwise. */
  lemma SymbolMeaning(codes: seq<byte>, code: byte)
    requires Legend(code).Symbols? && code < 0x80
    ensures Characters(NO_MODS, codes + [code]) ==
            Characters(NO_MODS, codes) + [if Shifted(codes) then Legend(code).shifted else Legend(code).plain]
    ensures Legend(0x02) == Symbols(49, 33)
  {
    SymbolKey(Legend(code), Shifted(codes));
    FirstSymbol();
    hide Legend, Characters, Shifted, KeyOf, Keystrokes;
    CharactersAreKeystrokes(codes);
    CharactersAreKeystrokes(codes + [code]);
    OneMoreKey(codes, code);
  }

  lemma FirstSymbol()
    ensures Legend(0x02) == Symbols(49, 33)
  {
  }

  lemma SymbolKey(k: Keycap, shifted: bool)
    requires k.Symbols?
    ensures ToSeq(KeyOf(k, shifted)) == [if shifted then k.shifted else k.plain]
  {
  }

  lemma OneMoreKey(codes: seq<byte>, code: byte)
    requires code < 0x80
    ensures Keystrokes(codes + [code]) == Keystrokes(codes) + ToSeq(KeyOf(Legend(code), Shifted(codes)))
  {
    hide Legend, Shifted, KeyOf;
    assert (codes + [code])[..|codes|] == codes;
  }

  lemma LetterKey(k: Keycap, shifted: bool)
    requires k.Letter? && IsLower(k.small)
    ensures ToSeq(KeyOf(k, shifted)) == [if shifted then k.small - 32 else k.small]
  {
  }

  lemma LettersAreLetters(code: byte)
    requires Legend(code).Letter?
    ensures code < 0x80 && IsLower(Legend(code).small)
  {
  }

  function WithoutExtended(codes: seq<byte>): seq<byte> {
    if codes == [] then []
    else (if codes[0] == EXTENDED then [] else [codes[0]]) + WithoutExtended(codes[1..])
  }

  /** The 0xE0 prefix has its top bit set, so the release branch takes it and the extended flag
      is never raised: prefixes can be dropped from any input, and an extended key decodes as
      the plain key with the same code. */
  lemma {:induction false} ExtendedPrefixIgnored(m: Mods, codes: seq<byte>)
    requires !m.extended
    ensures Characters(m, codes) == Characters(m, WithoutExtended(codes))
    ensures Flags(m, codes) == Flags(m, WithoutExtended(codes)) && !Flags(m, codes).extended
    decreases |codes|
  {
    if codes != [] {
      var m1 := Decode(m, codes[0]).0;
      ExtendedPrefixIgnored(m1, codes[1..]);
      var rest := WithoutExtended(codes[1..]);
      if codes[0] == EXTENDED {
        assert WithoutExtended(codes) == rest && m1 == m;
      } else {
        assert WithoutExtended(codes) == [codes[0]] + rest;
        assert ([codes[0]] + rest)[1..] == rest;
      }
    }
  }
}
