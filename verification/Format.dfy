/** Integer printing and parsing of kernel/string.c: `sprintf` and `atoi`, with the 32-bit
    arithmetic of the source. Signed overflow is modelled as wrap-around; NoOverflow says
    when none happens. */
module Format {
  import opened Bytes
  import opened CString

  const MINUS: byte := 45
  const PERCENT: byte := 37
  const LETTER_D: byte := 100
  const LETTER_S: byte := 115
  const SPACE: byte := 32

  predicate IsDigit(c: byte) { 48 <= c <= 57 }

  // C's division, which truncates toward zero

  function TruncDiv(a: int, b: nat): int
    requires b > 0
  {
    if a >= 0 then a / b else -((-a) / b)
  }

  function TruncMod(a: int, b: nat): int
    requires b > 0
  {
    a - b * TruncDiv(a, b)
  }

  // Printing

  function Digits(n: nat): (s: seq<byte>)
    ensures |s| >= 1 && forall i :: 0 <= i < |s| ==> IsDigit(s[i])
  {
    if n < 10 then [48 + n] else Digits(n / 10) + [48 + n % 10]
  }

  /** What the digit loop leaves for a value: its decimal digits, or one truncated remainder
      for the only value that is still negative after negation. */
  function Magnitude(v: int32): (s: seq<byte>)
    ensures |s| >= 1
  {
    if v >= 0 then Digits(v) else [48 + TruncMod(v, 10)]
  }

  /** The text `%d` produces. */
  function Render(v: int32): (s: seq<byte>)
    ensures |s| >= 1
  {
    if v < 0 then [MINUS] + Magnitude(Wrap32(-(v as int))) else Digits(v)
  }

  lemma RenderIntMin()
    ensures Render(INT_MIN) == [MINUS, 40]
  {
    assert Wrap32(-(INT_MIN as int)) == INT_MIN;
    assert TruncMod(INT_MIN, 10) == -8;
  }

  function Pow10(k: nat): (p: nat)
    ensures p >= 1
  {
    if k == 0 then 1 else 10 * Pow10(k - 1)
  }

  lemma {:induction false} DigitsLength(n: nat, k: nat)
    requires k >= 1 && n < Pow10(k)
    ensures |Digits(n)| <= k
  {
    if n >= 10 {
      assert k > 1;
      DigitsLength(n / 10, k - 1);
    }
  }

  function Reverse(s: seq<byte>): (r: seq<byte>)
    ensures |r| == |s| && forall k :: 0 <= k < |s| ==> r[k] == s[|s| - 1 - k]
  {
    if s == [] then [] else [s[|s| - 1]] + Reverse(s[..|s| - 1])
  }

  datatype Arg = Int(v: int32) | Str(s: seq<byte>) {
    predicate Valid() { Str? ==> Terminated(s, 0) }

    function Print(): seq<byte>
      requires Valid()
    {
      if Int? then Render(v) else Text(s, 0)
    }
  }

  predicate ArgsValid(args: seq<Arg>) {
    forall i :: 0 <= i < |args| ==> args[i].Valid()
  }

  /** The arguments supply, in order, an int for every %d and a string for every %s. */
  predicate ArgsMatch(fmt: seq<byte>, args: seq<Arg>)
    decreases |fmt|
  {
    if fmt == [] then true
    else if fmt[0] == PERCENT && |fmt| > 1 then
      if fmt[1] == LETTER_D then args != [] && args[0].Int? && ArgsMatch(fmt[2..], args[1..])
      else if fmt[1] == LETTER_S then args != [] && args[0].Str? && ArgsMatch(fmt[2..], args[1..])
      else ArgsMatch(fmt[2..], args)
    else ArgsMatch(fmt[1..], args)
  }

  /** The left-to-right expansion of a format. */
  function Expand(fmt: seq<byte>, args: seq<Arg>): seq<byte>
    requires ArgsMatch(fmt, args) && ArgsValid(args)
    decreases |fmt|
  {
    if fmt == [] then []
    else if fmt[0] == PERCENT && |fmt| > 1 then
      if fmt[1] == LETTER_D || fmt[1] == LETTER_S then args[0].Print() + Expand(fmt[2..], args[1..])
      else [fmt[1]] + Expand(fmt[2..], args)
    else [fmt[0]] + Expand(fmt[1..], args)
  }

  /** Text without % is copied. */
  lemma {:induction false} ExpandLiteral(text: seq<byte>, fmt: seq<byte>, args: seq<Arg>)
    requires PERCENT !in text && ArgsMatch(fmt, args) && ArgsValid(args)
    ensures ArgsMatch(text + fmt, args) && Expand(text + fmt, args) == text + Expand(fmt, args)
    decreases |text|
  {
    if text == [] {
      assert text + fmt == fmt;
    } else {
      assert text[0] in text;
      assert (text + fmt)[1..] == text[1..] + fmt;
      ExpandLiteral(text[1..], fmt, args);
    }
  }

  /** A conversion prints its argument and hands the rest to the remaining format. */
  lemma ExpandConversion(arg: Arg, fmt: seq<byte>, args: seq<Arg>)
    requires arg.Valid() && ArgsMatch(fmt, args) && ArgsValid(args)
    ensures var spec := [PERCENT, if arg.Int? then LETTER_D else LETTER_S] + fmt;
            && ArgsMatch(spec, [arg] + args) && ArgsValid([arg] + args)
            && Expand(spec, [arg] + args) ==
               (match arg case Int(v) => Render(v) case Str(s) => Text(s, 0)) + Expand(fmt, args)
  {
    var spec := [PERCENT, if arg.Int? then LETTER_D else LETTER_S] + fmt;
    assert spec[2..] == fmt && ([arg] + args)[1..] == args;
  }

  /** After % any other character prints itself and takes no argument, and so does a % at the end. */
  lemma ExpandOther(c: byte, fmt: seq<byte>, args: seq<Arg>)
    requires c != LETTER_D && c != LETTER_S && ArgsMatch(fmt, args) && ArgsValid(args)
    ensures ArgsMatch([PERCENT, c] + fmt, args) && Expand([PERCENT, c] + fmt, args) == [c] + Expand(fmt, args)
    ensures ArgsMatch([PERCENT], args) && Expand([PERCENT], args) == [PERCENT]
  {
    assert ([PERCENT, c] + fmt)[2..] == fmt;
  }

  lemma PatchPatch(m: seq<byte>, p: nat, a: seq<byte>, b: seq<byte>)
    requires p + |a| + |b| <= |m|
    ensures Patch(Patch(m, p, a), p + |a|, b) == Patch(m, p, a + b)
  {
  }

  lemma MagnitudeStep(v: int32)
    ensures 0 <= TruncMod(v, 10) + 48 < 0x100 && -0x8000_0000 <= TruncDiv(v, 10) < 0x8000_0000
    ensures TruncDiv(v, 10) > 0 ==> Magnitude(v) == Magnitude(TruncDiv(v, 10)) + [TruncMod(v, 10) + 48]
    ensures TruncDiv(v, 10) <= 0 ==> Magnitude(v) == [TruncMod(v, 10) + 48]
    ensures TruncDiv(v, 10) > 0 ==> TruncDiv(v, 10) < v
  {
  }

  lemma ReverseSnoc(s: seq<byte>, c: byte)
    ensures Reverse(s + [c]) == [c] + Reverse(s)
  {
    assert (s + [c])[..|s|] == s;
  }

  lemma MagnitudeLength(v: int32)
    ensures |Magnitude(v)| <= 10
  {
    assert Pow10(5) == 100000 && Pow10(10) == 10000000000;
    if v >= 0 { DigitsLength(v, 10); }
  }

  /** The digit loop: the magnitude lands in `temp`, least significant digit first. */
  method ExtractDigits(temp: array<byte>, v: int32) returns (i: nat)
    requires temp.Length == 32
    modifies temp
    ensures 1 <= i <= 10 && Reverse(temp[..i]) == Magnitude(v)
  {
    MagnitudeLength(v);
    ghost var all := Magnitude(v);
    NothingExtracted(v);
    hide Magnitude, Reverse, TruncDiv, TruncMod;
    var val: int32 := v;
    var more := true;
    i := 0;
    while more
      invariant i <= 10 && Extracted(all, val, temp[..i], more)
      decreases more, if val < 0 then 0 else val
    {
      ExtractOne(all, val, temp[..i]);
      ghost var was := temp[..i];
      temp[i] := TruncMod(val, 10) + 48;
      assert temp[..i + 1] == was + [temp[i]];
      i := i + 1;
      val := TruncDiv(val, 10);
      more := val > 0;
    }
  }

  lemma NothingExtracted(v: int32)
    ensures Extracted(Magnitude(v), v, [], true)
  {
  }

  /** The digits taken so far, backwards, are the end of the magnitude. */
  ghost predicate Extracted(all: seq<byte>, val: int32, done: seq<byte>, more: bool) {
    && |done| + (if more then |Magnitude(val)| else 0) == |all|
    && all == (if more then Magnitude(val) else []) + Reverse(done)
  }

  lemma ExtractOne(all: seq<byte>, val: int32, done: seq<byte>)
    requires Extracted(all, val, done, true) && |all| <= 10
    ensures 0 <= TruncMod(val, 10) + 48 < 0x100 && |done| < 10
    ensures -0x8000_0000 <= TruncDiv(val, 10) < 0x8000_0000
    ensures TruncDiv(val, 10) > 0 ==> TruncDiv(val, 10) < val
    ensures Extracted(all, TruncDiv(val, 10), done + [TruncMod(val, 10) + 48], TruncDiv(val, 10) > 0)
  {
    MagnitudeStep(val);
    ReverseSnoc(done, TruncMod(val, 10) + 48);
  }

  /** The digits, last one first, to the end of the output. */
  method CopyBackwards(buffer: array<byte>, b: nat, temp: array<byte>, n: nat) returns (next: nat)
    requires buffer != temp && n <= temp.Length && b + n <= buffer.Length
    modifies buffer
    ensures next == b + n
    ensures buffer[..] == Patch(old(buffer[..]), b, Reverse(temp[..n]))
  {
    ghost var was, all := buffer[..], Reverse(temp[..n]);
    hide Reverse;
    var i := n;
    next := b;
    while i != 0
      invariant i <= n && next + i == b + n
      invariant forall j :: b <= j < next ==> buffer[j] == all[j - b]
      invariant forall j :: 0 <= j < buffer.Length && !(b <= j < next) ==> buffer[j] == was[j]
    {
      i := i - 1;
      buffer[next] := temp[i];
      next := next + 1;
    }
    PatchIs(was, b, all, buffer[..]);
  }

  method PutInt(buffer: array<byte>, b: nat, v: int32) returns (next: nat)
    requires b + |Render(v)| <= buffer.Length
    modifies buffer
    ensures next == b + |Render(v)|
    ensures buffer[..] == Patch(old(buffer[..]), b, Render(v))
  {
    hide Digits, Reverse, Patch, Wrap32;
    var temp := new byte[32];
    var val, neg := v, false;
    if val < 0 { neg, val := true, Wrap32(-(val as int)); }
    var i := ExtractDigits(temp, val);
    if neg {
      ghost var was := temp[..i];
      ReverseSnoc(was, MINUS);
      temp[i] := MINUS;
      assert temp[..i + 1] == was + [MINUS];
      i := i + 1;
    }
    assert Render(v) == Reverse(temp[..i]);
    next := CopyBackwards(buffer, b, temp, i);
  }

  method PutStr(buffer: array<byte>, b: nat, s: seq<byte>) returns (next: nat)
    requires Terminated(s, 0) && b + |Text(s, 0)| <= buffer.Length
    modifies buffer
    ensures next == b + |Text(s, 0)|
    ensures buffer[..] == Patch(old(buffer[..]), b, Text(s, 0))
  {
    ghost var was := buffer[..];
    var p := 0;
    next := b;
    while s[p] != 0
      invariant p <= Len(s, 0) && next == b + p
      invariant forall j :: b <= j < b + p ==> buffer[j] == s[j - b]
      invariant forall j :: 0 <= j < buffer.Length && !(b <= j < b + p) ==> buffer[j] == was[j]
      decreases |s| - p
    {
      buffer[next] := s[p];
      next, p := next + 1, p + 1;
    }
    PatchIs(was, b, Text(s, 0), buffer[..]);
  }

  method PutByte(buffer: array<byte>, b: nat, c: byte)
    requires b < buffer.Length
    modifies buffer
    ensures buffer[..] == Patch(old(buffer[..]), b, [c])
  {
    buffer[b] := c;
  }

  method PutArg(buffer: array<byte>, b: nat, arg: Arg) returns (next: nat)
    requires arg.Valid() && b + |arg.Print()| <= buffer.Length
    modifies buffer
    ensures next == b + |arg.Print()|
    ensures buffer[..] == Patch(old(buffer[..]), b, arg.Print())
  {
    match arg
    case Int(v) => next := PutInt(buffer, b, v);
    case Str(s) => next := PutStr(buffer, b, s);
  }

  /** One round of the format loop, as a split of the expansion that is still to come. */
  lemma FormatStep(format: seq<byte>, f: nat, args: seq<Arg>, k: nat)
    requires Terminated(format, f) && format[f] != 0 && k <= |args| && ArgsValid(args)
    requires ArgsMatch(Text(format, f), args[k..])
    ensures Terminated(format, f + 1)
    ensures
      if format[f] != PERCENT || format[f + 1] == 0 then
        && ArgsMatch(Text(format, f + 1), args[k..])
        && Expand(Text(format, f), args[k..]) == [format[f]] + Expand(Text(format, f + 1), args[k..])
      else
        && Terminated(format, f + 2)
        && if format[f + 1] == LETTER_D || format[f + 1] == LETTER_S then
             && k < |args| && ArgsMatch(Text(format, f + 2), args[k + 1..])
             && Expand(Text(format, f), args[k..])
                == args[k].Print() + Expand(Text(format, f + 2), args[k + 1..])
           else
             && ArgsMatch(Text(format, f + 2), args[k..])
             && Expand(Text(format, f), args[k..])
                == [format[f + 1]] + Expand(Text(format, f + 2), args[k..])
  {
    TextStep(format, f);
    assert Text(format, f)[1..] == Text(format, f + 1);
    if format[f] == PERCENT && format[f + 1] != 0 {
      TextStep(format, f + 1);
      assert Text(format, f)[2..] == Text(format, f + 2);
      if format[f + 1] == LETTER_D || format[f + 1] == LETTER_S {
        assert args[k..][1..] == args[k + 1..] && args[k..][0] == args[k];
      }
    }
  }

  /** One round of the format loop. */
  method FormatOne(buffer: array<byte>, b: nat, format: seq<byte>, f: nat, args: seq<Arg>, k: nat)
      returns (b': nat, f': nat, k': nat)
    requires Terminated(format, f) && format[f] != 0 && k <= |args| && ArgsValid(args)
    requires ArgsMatch(Text(format, f), args[k..])
    requires b + |Expand(Text(format, f), args[k..])| < buffer.Length
    modifies buffer
    ensures f < f' < |format| && Terminated(format, f') && k <= k' <= |args| && b <= b'
    ensures ArgsMatch(Text(format, f'), args[k'..])
    ensures ghost var rest := Expand(Text(format, f'), args[k'..]);
            ghost var all := Expand(Text(format, f), args[k..]);
            && b' + |rest| == b + |all|
            && rest == all[b' - b..]
            && buffer[..] == Patch(old(buffer[..]), b, all[..b' - b])
  {
    FormatStep(format, f, args, k);
    ghost var all := Expand(Text(format, f), args[k..]);
    hide Expand, ArgsMatch, Text, Patch, Arg.Print;
    f', k' := f, k;
    ghost var piece;
    if format[f'] == PERCENT && format[f' + 1] != 0 {
      f' := f' + 1;
      if format[f'] == LETTER_D || format[f'] == LETTER_S {
        piece := args[k'].Print();
        b' := PutArg(buffer, b, args[k']);
        k' := k' + 1;
      } else {
        piece := [format[f']];
        PutByte(buffer, b, format[f']);
        b' := b + 1;
      }
    } else {
      piece := [format[f']];
      PutByte(buffer, b, format[f']);
      b' := b + 1;
    }
    f' := f' + 1;
    assert b' == b + |piece| && all == piece + Expand(Text(format, f'), args[k'..]);
    assert all[..b' - b] == piece;
  }

  lemma PatchNothing(m: seq<byte>, all: seq<byte>)
    requires |all| <= |m|
    ensures Patch(m, 0, all[..0]) == m && all[0..] == all
  {
  }

  lemma ExpansionEnds()
    ensures forall args: seq<Arg> :: ArgsMatch([], args) && ArgsValid(args) ==> Expand([], args) == []
  {
  }

  lemma PatchExtends(m: seq<byte>, all: seq<byte>, from: nat, to: nat)
    requires from <= to <= |all| <= |m|
    ensures Patch(Patch(m, 0, all[..from]), from, all[from..][..to - from]) == Patch(m, 0, all[..to])
    ensures all[from..][to - from..] == all[to..]
  {
    assert all[..from] + all[from..][..to - from] == all[..to];
    PatchPatch(m, 0, all[..from], all[from..][..to - from]);
  }

  /** The expansion followed by a NUL, its length returned, nothing else written. */
  method Sprintf(buffer: array<byte>, format: seq<byte>, args: seq<Arg>) returns (len: int)
    requires Terminated(format, 0)
    requires ArgsMatch(Text(format, 0), args) && ArgsValid(args)
    requires |Expand(Text(format, 0), args)| < buffer.Length
    modifies buffer
    ensures len == |Expand(Text(format, 0), args)|
    ensures buffer[..] == Patch(old(buffer[..]), 0, Expand(Text(format, 0), args) + [0])
  {
    ghost var was, all := buffer[..], Expand(Text(format, 0), args);
    var f, b, k := 0, 0, 0;
    assert args[0..] == args;
    PatchNothing(was, all);
    ExpansionEnds();
    hide Expand, ArgsMatch, Patch;
    while format[f] != 0
      invariant f < |format| && Terminated(format, f) && k <= |args| && b <= |all|
      invariant ArgsMatch(Text(format, f), args[k..])
      invariant Expand(Text(format, f), args[k..]) == all[b..]
      invariant buffer[..] == Patch(was, 0, all[..b])
      decreases |format| - f
    {
      ghost var from := b;
      b, f, k := FormatOne(buffer, b, format, f, args, k);
      PatchExtends(was, all, from, b);
    }
    assert Text(format, f) == [] && ArgsMatch([], args[k..]) && all[b..] == Expand([], args[k..]);
    assert all[..b] == all;
    PutByte(buffer, b, 0);
    PatchPatch(was, 0, all, [0]);
    len := b;
  }

  // Parsing

  /** The number spelled by the leading digits, continuing from acc. */
  function ValueFrom(acc: nat, s: seq<byte>): (v: nat)
    ensures v >= acc
    decreases |s|
  {
    if s == [] || !IsDigit(s[0]) then acc else ValueFrom(acc * 10 + (s[0] - 48), s[1..])
  }

  /** Every partial result of the accumulation is an int. */
  ghost predicate NoOverflow(acc: nat, s: seq<byte>)
    decreases |s|
  {
    acc < 0x8000_0000 &&
    (s != [] && IsDigit(s[0]) ==> NoOverflow(acc * 10 + (s[0] - 48), s[1..]))
  }

  lemma {:induction false} NoOverflowExact(acc: nat, s: seq<byte>)
    ensures NoOverflow(acc, s) <==> ValueFrom(acc, s) < 0x8000_0000
    decreases |s|
  {
    if s != [] && IsDigit(s[0]) { NoOverflowExact(acc * 10 + (s[0] - 48), s[1..]); }
  }

  /** The accumulator loop of atoi. */
  function Accumulate(res: int32, s: seq<byte>): int32
    decreases |s|
  {
    if s == [] || !IsDigit(s[0]) then res else Accumulate(Wrap32(res * 10 + (s[0] - 48)), s[1..])
  }

  function AtoiOf(s: seq<byte>): int32 {
    if s != [] && s[0] == MINUS then Wrap32(-(Accumulate(0, s[1..]) as int)) else Accumulate(0, s)
  }

  /** The integer the text spells, in unbounded arithmetic. */
  function Spelled(s: seq<byte>): int {
    if s != [] && s[0] == MINUS then -(ValueFrom(0, s[1..]) as int) else ValueFrom(0, s)
  }

  lemma WrapCongruent(x: int, y: int, k: int)
    requires x == y + 0x1_0000_0000 * k
    ensures Wrap32(x) == Wrap32(y)
  {
  }

  lemma WrapDifference(v: int) returns (k: int)
    ensures v == Wrap32(v) + 0x1_0000_0000 * k
  {
    k := (v + 0x8000_0000) / 0x1_0000_0000;
  }

  lemma WrapStep(v: int, d: int)
    ensures Wrap32(Wrap32(v) * 10 + d) == Wrap32(v * 10 + d)
    ensures Wrap32(-(Wrap32(v) as int)) == Wrap32(-v)
  {
    var k := WrapDifference(v);
    WrapCongruent(v * 10 + d, Wrap32(v) * 10 + d, 10 * k);
    WrapCongruent(-v, -(Wrap32(v) as int), -k);
  }

  lemma {:induction false} AccumulateWraps(acc: nat, s: seq<byte>)
    ensures Accumulate(Wrap32(acc), s) == Wrap32(ValueFrom(acc, s))
    decreases |s|
  {
    if s != [] && IsDigit(s[0]) {
      WrapStep(acc, s[0] - 48);
      AccumulateWraps(acc * 10 + (s[0] - 48), s[1..]);
    }
  }

  /** atoi is the spelled integer reduced to 32 bits, hence exact just when that fits. */
  lemma AtoiExact(s: seq<byte>)
    ensures AtoiOf(s) == Wrap32(Spelled(s))
    ensures AtoiOf(s) == Spelled(s) <==> -0x8000_0000 <= Spelled(s) < 0x8000_0000
  {
    if s != [] && s[0] == MINUS {
      AccumulateWraps(0, s[1..]);
      WrapStep(ValueFrom(0, s[1..]), 0);
    } else {
      AccumulateWraps(0, s);
    }
  }

  method Atoi(str: seq<byte>) returns (r: int)
    requires Terminated(str, 0)
    ensures r == AtoiOf(Text(str, 0))
  {
    var res: int, sign, p := 0, 1, 0;
    if str[p] == MINUS {
      TextStep(str, p);
      sign, p := -1, p + 1;
    }
    res := AtoiDigits(str, p);
    r := Wrap32(res * sign);
  }

  /** The accumulation loop. */
  method AtoiDigits(str: seq<byte>, start: nat) returns (res: int)
    requires Terminated(str, start)
    ensures -0x8000_0000 <= res < 0x8000_0000 && res == Accumulate(0, Text(str, start))
  {
    var p := start;
    res := 0;
    while IsDigit(str[p])
      invariant p < |str| && Terminated(str, p)
      invariant -0x8000_0000 <= res < 0x8000_0000
      invariant Accumulate(res, Text(str, p)) == Accumulate(0, Text(str, start))
      decreases |str| - p
    {
      TextStep(str, p);
      res := Wrap32(res * 10 + (str[p] - 48));
      p := p + 1;
    }
    if str[p] != 0 { TextStep(str, p); }
  }

  // Printing and parsing undo each other

  lemma {:induction false} ValueOfDigits(n: nat, rest: seq<byte>)
    ensures ValueFrom(0, Digits(n) + rest) == ValueFrom(n, rest)
  {
    if n < 10 {
      assert (Digits(n) + rest)[1..] == rest;
    } else {
      var d := [48 + n % 10];
      assert Digits(n) + rest == Digits(n / 10) + (d + rest);
      ValueOfDigits(n / 10, d + rest);
      assert (d + rest)[1..] == rest;
    }
  }

  predicate StartsWithDigit(s: seq<byte>) { s != [] && IsDigit(s[0]) }

  lemma RenderForms(v: int32)
    ensures v >= 0 ==> Render(v) == Digits(v)
    ensures v < 0 && v != INT_MIN ==> Render(v) == [MINUS] + Digits(-(v as int))
  {
  }

  lemma SpelledDigits(n: nat, rest: seq<byte>)
    requires !StartsWithDigit(rest)
    ensures Spelled(Digits(n) + rest) == n
    ensures Spelled([MINUS] + Digits(n) + rest) == -(n as int)
  {
    ValueOfDigits(n, rest);
    assert (Digits(n) + rest)[0] == Digits(n)[0];
    assert ([MINUS] + Digits(n) + rest)[1..] == Digits(n) + rest;
  }

  /** What the rendered text spells: every int but the least spells itself when no digit
      follows; the least prints as a minus sign and a parenthesis. */
  lemma SpelledRender(v: int32, rest: seq<byte>)
    requires !StartsWithDigit(rest)
    ensures Spelled(Render(v) + rest) == if v == INT_MIN then 0 else v
  {
    RenderForms(v);
    if v >= 0 {
      SpelledDigits(v, rest);
    } else if v == INT_MIN {
      RenderIntMin();
      assert (Render(v) + rest)[1..][0] == 40;
    } else {
      SpelledDigits(-(v as int), rest);
    }
  }

  /** Decimal notation: digits without a leading zero but for zero itself. */
  predicate IsDecimal(s: seq<byte>) {
    s != [] && (forall i :: 0 <= i < |s| ==> 48 <= s[i] <= 57) && (s[0] == 48 ==> s == [48])
  }

  lemma {:induction false} DigitsDecimal(n: nat)
    ensures IsDecimal(Digits(n)) && (Digits(n)[0] == 48 <==> n == 0)
  {
    if n >= 10 { DigitsDecimal(n / 10); }
  }

  /** %d prints every int but the least in decimal notation, after a minus sign if it is negative:
      with SpelledRender this leaves one text only. */
  lemma RenderDecimal(v: int32)
    requires v != INT_MIN
    ensures if v >= 0 then IsDecimal(Render(v)) else Render(v)[0] == 45 && IsDecimal(Render(v)[1..])
    ensures Spelled(Render(v)) == v
  {
    assert Render(v) + [] == Render(v);
    SpelledRender(v, []);
    RenderForms(v);
    if v >= 0 {
      DigitsDecimal(v);
    } else {
      DigitsDecimal(-(v as int));
      assert Render(v)[1..] == Digits(-(v as int));
    }
  }

  /** atoi recovers the int exactly when it is not INT_MIN, and never overflows on the way. */
  lemma AtoiInvertsRender(v: int32, rest: seq<byte>)
    requires !StartsWithDigit(rest)
    ensures AtoiOf(Render(v) + rest) == v <==> v != INT_MIN
    ensures NoOverflow(0, if v < 0 then (Render(v) + rest)[1..] else Render(v) + rest)
  {
    SpelledRender(v, rest);
    AtoiExact(Render(v) + rest);
    var s := Render(v) + rest;
    if v >= 0 { assert s[0] == Digits(v)[0]; }
    NoOverflowExact(0, if v < 0 then s[1..] else s);
  }
}
