/** The argument parser of the shell's `read` command (kernel/kernel.c), and exactly when it
    undoes the printing of three ints. */
module ReadCommand {
  import opened Bytes
  import opened CString
  import opened Format

  function SkipSpaces(s: seq<byte>): seq<byte> {
    if s != [] && s[0] == SPACE then SkipSpaces(s[1..]) else s
  }

  function SkipDigits(s: seq<byte>): seq<byte> {
    if s != [] && IsDigit(s[0]) then SkipDigits(s[1..]) else s
  }

  /** Where the next field starts. */
  function NextField(s: seq<byte>): seq<byte> { SkipSpaces(SkipDigits(s)) }

  datatype ReadArgs = ReadArgs(disk: int32, lba: int32, count: int32)

  function ParseRead(s: seq<byte>): ReadArgs {
    var f1 := SkipSpaces(s);
    var f2 := NextField(f1);
    ReadArgs(AtoiOf(f1), AtoiOf(f2), AtoiOf(NextField(f2)))
  }

  /** From a to b are spaces only, and no more follow. */
  ghost predicate SpacesEnd(s: seq<byte>, a: nat, b: nat) {
    a <= b <= |s| && (forall i :: a <= i < b ==> s[i] == 32) && (b < |s| ==> s[b] != 32)
  }

  ghost predicate DigitsEnd(s: seq<byte>, a: nat, b: nat) {
    a <= b <= |s| && (forall i :: a <= i < b ==> 48 <= s[i] <= 57) && (b < |s| ==> !(48 <= s[b] <= 57))
  }

  lemma {:induction false} SkipSpacesTo(s: seq<byte>, a: nat) returns (b: nat)
    requires a <= |s|
    ensures SpacesEnd(s, a, b) && SkipSpaces(s[a..]) == s[b..]
    decreases |s| - a
  {
    b := a;
    if a < |s| && s[a] == 32 {
      assert s[a..][1..] == s[a + 1..];
      b := SkipSpacesTo(s, a + 1);
    }
  }

  lemma {:induction false} SkipDigitsTo(s: seq<byte>, a: nat) returns (b: nat)
    requires a <= |s|
    ensures DigitsEnd(s, a, b) && SkipDigits(s[a..]) == s[b..]
    decreases |s| - a
  {
    b := a;
    if a < |s| && IsDigit(s[a]) {
      assert s[a..][1..] == s[a + 1..];
      b := SkipDigitsTo(s, a + 1);
    }
  }

  /** Where the three numbers of any text are read: after its spaces, and then twice after the digits
      and the spaces that follow, whatever those stopped at. */
  lemma FieldsAt(s: seq<byte>) returns (f: seq<nat>)
    ensures |f| == 5 && f[4] <= |s| && SpacesEnd(s, 0, f[0]) && DigitsEnd(s, f[0], f[1]) && SpacesEnd(s, f[1], f[2])
            && DigitsEnd(s, f[2], f[3]) && SpacesEnd(s, f[3], f[4])
    ensures ParseRead(s) == ReadArgs(AtoiOf(s[f[0]..]), AtoiOf(s[f[2]..]), AtoiOf(s[f[4]..]))
  {
    assert s[0..] == s;
    var a := SkipSpacesTo(s, 0);
    var b := SkipDigitsTo(s, a);
    var c := SkipSpacesTo(s, b);
    var d := SkipDigitsTo(s, c);
    var e := SkipSpacesTo(s, d);
    f := [a, b, c, d, e];
  }

  method WalkSpaces(cmd: seq<byte>, start: nat) returns (p: nat)
    requires Terminated(cmd, start)
    ensures start <= p < |cmd| && Terminated(cmd, p) && Text(cmd, p) == SkipSpaces(Text(cmd, start))
  {
    p := start;
    while cmd[p] == SPACE
      invariant start <= p < |cmd| && Terminated(cmd, p)
      invariant SkipSpaces(Text(cmd, p)) == SkipSpaces(Text(cmd, start))
      decreases |cmd| - p
    {
      TextStep(cmd, p);
      p := p + 1;
    }
    if cmd[p] != 0 { TextStep(cmd, p); }
  }

  method WalkDigits(cmd: seq<byte>, start: nat) returns (p: nat)
    requires Terminated(cmd, start)
    ensures start <= p < |cmd| && Terminated(cmd, p) && Text(cmd, p) == SkipDigits(Text(cmd, start))
  {
    p := start;
    while IsDigit(cmd[p])
      invariant start <= p < |cmd| && Terminated(cmd, p)
      invariant SkipDigits(Text(cmd, p)) == SkipDigits(Text(cmd, start))
      decreases |cmd| - p
    {
      TextStep(cmd, p);
      p := p + 1;
    }
    if cmd[p] != 0 { TextStep(cmd, p); }
  }

  /** The parser proper, on the command buffer after the word "read ". */
  method Parse(cmd: seq<byte>) returns (r: ReadArgs)
    requires Terminated(cmd, 5)
    ensures r == ParseRead(Text(cmd, 5))
  {
    var p := WalkSpaces(cmd, 5);
    SameText(cmd, p);
    var disk := Atoi(cmd[p..]);
    p := WalkDigits(cmd, p);
    p := WalkSpaces(cmd, p);
    SameText(cmd, p);
    var lba := Atoi(cmd[p..]);
    p := WalkDigits(cmd, p);
    p := WalkSpaces(cmd, p);
    SameText(cmd, p);
    var count := Atoi(cmd[p..]);
    r := ReadArgs(disk, lba, count);
  }

  function Spaces(n: nat): (s: seq<byte>)
    ensures |s| == n && forall i :: 0 <= i < n ==> s[i] == SPACE
  {
    seq(n, _ => SPACE)
  }

  lemma {:induction false} SpacesSkipped(n: nat, t: seq<byte>)
    requires t == [] || t[0] != SPACE
    ensures SkipSpaces(Spaces(n) + t) == t
    decreases n
  {
    if n == 0 {
      assert Spaces(0) + t == t;
    } else {
      assert (Spaces(n) + t)[1..] == Spaces(n - 1) + t;
      SpacesSkipped(n - 1, t);
    }
  }

  lemma {:induction false} DigitsSkipped(d: seq<byte>, t: seq<byte>)
    requires (forall i :: 0 <= i < |d| ==> IsDigit(d[i])) && !StartsWithDigit(t)
    ensures SkipDigits(d + t) == t
    decreases |d|
  {
    if d == [] {
      assert d + t == t;
    } else {
      assert (d + t)[1..] == d[1..] + t;
      DigitsSkipped(d[1..], t);
    }
  }

  lemma RenderStart(v: int32, t: seq<byte>)
    ensures var s := Render(v) + t;
            s != [] && s[0] != SPACE && (StartsWithDigit(s) <==> v >= 0) && (v < 0 ==> s[0] == MINUS)
  {
    if v >= 0 { assert (Render(v) + t)[0] == Digits(v)[0]; }
  }

  /** The fields of the parser on n1 spaces, a, n2 spaces, b, n3 spaces, c and a tail: the
      digit-skipping loop does not move past a minus sign, so a negative field is read again
      as every later one. */
  lemma {:induction false} FieldAfter(v: int32, n: nat, t: seq<byte>)
    requires n >= 1 && t != [] && t[0] != SPACE
    ensures NextField(Render(v) + (Spaces(n) + t)) == if v >= 0 then t else Render(v) + (Spaces(n) + t)
    ensures !StartsWithDigit(Spaces(n) + t)
  {
    var gap := Spaces(n) + t;
    assert gap[0] == SPACE;
    RenderStart(v, gap);
    if v >= 0 {
      DigitsSkipped(Digits(v), gap);
      SpacesSkipped(n, t);
    }
  }

  ghost function Line(n1: nat, a: int32, n2: nat, b: int32, n3: nat, c: int32, tail: seq<byte>): seq<byte> {
    Spaces(n1) + (Render(a) + (Spaces(n2) + (Render(b) + (Spaces(n3) + (Render(c) + tail)))))
  }

  /** What an int comes back as. */
  function Reread(v: int32): int32 { if v == INT_MIN then 0 else v }

  lemma AtoiOfRender(v: int32, rest: seq<byte>)
    requires !StartsWithDigit(rest)
    ensures AtoiOf(Render(v) + rest) == Reread(v)
  {
    SpelledRender(v, rest);
    AtoiExact(Render(v) + rest);
  }

  lemma ParseReadLine(n1: nat, a: int32, n2: nat, b: int32, n3: nat, c: int32, tail: seq<byte>)
    requires n2 >= 1 && n3 >= 1 && !StartsWithDigit(tail)
    ensures ParseRead(Line(n1, a, n2, b, n3, c, tail)) ==
            if a < 0 then ReadArgs(Reread(a), Reread(a), Reread(a))
            else if b < 0 then ReadArgs(a, Reread(b), Reread(b))
            else ReadArgs(a, b, Reread(c))
  {
    var t3 := Render(c) + tail;
    var t2 := Render(b) + (Spaces(n3) + t3);
    var t1 := Render(a) + (Spaces(n2) + t2);
    RenderStart(a, Spaces(n2) + t2);
    RenderStart(b, Spaces(n3) + t3);
    RenderStart(c, tail);
    SpacesSkipped(n1, t1);
    FieldAfter(a, n2, t2);
    FieldAfter(b, n3, t3);
    AtoiOfRender(a, Spaces(n2) + t2);
    AtoiOfRender(b, Spaces(n3) + t3);
    AtoiOfRender(c, tail);
  }

  /** The parser recovers three printed ints exactly when none is INT_MIN and, from the first
      negative one on, they are all the same; in particular for all non-negative ints. */
  lemma ParseReadRecovers(n1: nat, a: int32, n2: nat, b: int32, n3: nat, c: int32, tail: seq<byte>)
    requires n2 >= 1 && n3 >= 1 && !StartsWithDigit(tail)
    ensures ParseRead(Line(n1, a, n2, b, n3, c, tail)) == ReadArgs(a, b, c)
            <==> a != INT_MIN && b != INT_MIN && c != INT_MIN
                 && (a < 0 ==> a == b == c) && (a >= 0 && b < 0 ==> b == c)
  {
    ParseReadLine(n1, a, n2, b, n3, c, tail);
  }

  /** The byte count the shell asks malloc for: `count * 512` as an int, widened to size_t. */
  function BufferSize(count: int32): u64 { Wrap32(count * 512) % TWO_64 }

  /** The sectors a read of that count transfers: the count as an unsigned number. */
  function SectorsRead(count: int32): u32 { count % 0x1_0000_0000 }

  /** The buffer is as large as the transfer exactly for counts from 0 to 4194303. */
  lemma BufferExact(count: int32)
    ensures BufferSize(count) == 512 * SectorsRead(count) <==> 0 <= count <= 4194303
  {
    if 0 <= count <= 4194303 {
      assert Wrap32(count * 512) == count * 512;
    } else if count < 0 {
      assert SectorsRead(count) == count + 0x1_0000_0000;
      NegativeCount(count);
    } else {
      assert BufferSize(count) < 0x8000_0000 || BufferSize(count) >= TWO_64 - 0x8000_0000;
    }
  }

  lemma NegativeCount(count: int32)
    requires count < 0
    ensures BufferSize(count) != 512 * (count + 0x1_0000_0000)
  {
    assert BufferSize(count) < 0x8000_0000 || BufferSize(count) >= TWO_64 - 0x8000_0000;
  }

  /** Without a space between two fields their digits run together: 12 and 3 are read as 123. */
  lemma FieldsNeedASpace(n1: nat, a: int32, b: int32, n3: nat, c: int32, tail: seq<byte>)
    requires 0 < a < 100_000_000 && 0 <= b < 10 && n3 >= 1
    ensures ParseRead(Line(n1, a, 0, b, n3, c, tail)).disk == 10 * a + b > a
  {
    var t := Spaces(n3) + (Render(c) + tail);
    var s := Render(b) + t;
    assert Spaces(0) + s == s && t[0] == SPACE && s[0] == 48 + b && s[1..] == t;
    RenderStart(a, s);
    SpacesSkipped(n1, Render(a) + s);
    ValueOfDigits(a, s);
    assert ValueFrom(a, s) == ValueFrom(10 * a + b, t) == 10 * a + b;
    AtoiExact(Render(a) + s);
  }

  const INT_SPEC: seq<byte> := [PERCENT, LETTER_D]
  const READ_FORMAT: seq<byte> := INT_SPEC + ([SPACE] + (INT_SPEC + ([SPACE] + INT_SPEC)))

  lemma ExpandInt(v: int32, fmt: seq<byte>, args: seq<Arg>)
    requires ArgsMatch(fmt, args) && ArgsValid(args)
    ensures ArgsMatch(INT_SPEC + fmt, [Int(v)] + args) && ArgsValid([Int(v)] + args)
    ensures Expand(INT_SPEC + fmt, [Int(v)] + args) == Render(v) + Expand(fmt, args)
  {
    ExpandConversion(Int(v), fmt, args);
  }

  /** The text `sprintf` prints for "%d %d %d" is such a line. */
  lemma PrintedLine(a: int32, b: int32, c: int32)
    ensures var args := [Int(a)] + ([Int(b)] + [Int(c)]);
            && ArgsMatch(READ_FORMAT, args) && ArgsValid(args)
            && Expand(READ_FORMAT, args) == Line(0, a, 1, b, 1, c, [])
  {
    var c1: seq<Arg> := [Int(c)];
    var b1 := [Int(b)] + c1;
    var f1 := [SPACE] + INT_SPEC;
    var f2 := [SPACE] + (INT_SPEC + f1);
    assert INT_SPEC + [] == INT_SPEC && c1 + [] == c1;
    ExpandInt(c, [], []);
    ExpandLiteral([SPACE], INT_SPEC, c1);
    ExpandInt(b, f1, c1);
    ExpandLiteral([SPACE], INT_SPEC + f1, b1);
    ExpandInt(a, f2, b1);
    assert Spaces(1) == [SPACE] && Spaces(0) == [];
  }

  lemma ParseUndoesPrint(a: int32, b: int32, c: int32)
    requires a >= 0 && b >= 0 && c >= 0
    ensures var args := [Int(a)] + ([Int(b)] + [Int(c)]);
            && ArgsMatch(READ_FORMAT, args) && ArgsValid(args)
            && ParseRead(Expand(READ_FORMAT, args)) == ReadArgs(a, b, c)
  {
    PrintedLine(a, b, c);
    ParseReadRecovers(0, a, 1, b, 1, c, []);
  }
}
